// The series configuration of SeriesMgr/SeriesModel.py: the races, the
// points structures they score with, and the category order, each edit
// raising the `changed` flag only when it alters something.

module SeriesConfig {
  import opened PyText
  import opened Sorting
  import opened Series

  // ---------------------------------------------------------------- setPoints

  /** One row of the points editor: the new name, the name it had, the
      points text and the participation and DNF points as text. */
  datatype PointsRow = PointsRow(name: string, oldName: string, points: string,
                                 participationPoints: string, dnfPoints: string)

  /** A row setPoints accepts: name and points stripped, numbers read. */
  datatype Structure = Structure(name: string, points: string, participationPoints: int, dnfPoints: int)

  /** What setPoints builds from its rows: the accepted structures in row
      order and the map from each old name to the new one. */
  datatype Plan = Plan(structures: seq<Structure>, oldToNew: map<string, string>)

  const DEFAULT_POINT_STRUCTURE_NAME := "Regular"

  /** int(s or '0'): the empty text is 0, anything else goes through int(). */
  function IntOrZero(s: string): (r: Option<int>)
    ensures s == "" ==> r == Some(0)
    ensures r.Some? <==> s == "" || IsIntLiteral(Strip(s))
  {
    if s == "" then Some(0) else PyInt(s)
  }

  /** A row as the setPoints loop reads it: texts stripped, numbers read
      (None where int() raises ValueError). */
  datatype Entry = Entry(name: string, oldName: string, points: string,
                         participationPoints: Option<int>, dnfPoints: Option<int>)

  function Clean(row: PointsRow): Entry
  {
    Entry(Strip(row.name), Strip(row.oldName), Strip(row.points),
          IntOrZero(row.participationPoints), IntOrZero(row.dnfPoints))
  }

  function Cleaned(rows: seq<PointsRow>): (es: seq<Entry>)
    ensures |es| == |rows| && forall i :: 0 <= i < |rows| ==> es[i] == Clean(rows[i])
  {
    seq(|rows|, i requires 0 <= i < |rows| => Clean(rows[i]))
  }

  function NamesOf(ss: seq<Structure>): (names: seq<string>)
    ensures |names| == |ss| && forall k :: 0 <= k < |ss| ==> names[k] == ss[k].name
  {
    seq(|ss|, k requires 0 <= k < |ss| => ss[k].name)
  }

  lemma NamesAppend(ss: seq<Structure>, s: Structure)
    ensures NamesOf(ss + [s]) == NamesOf(ss) + [s.name]
  {
    assert NamesOf(ss + [s])[..|ss|] == NamesOf(ss);
  }

  /** One pass of the setPoints loop: a blank or repeated name is skipped,
      a number that int() refuses raises ValueError (None). */
  function PlanStep(plan: Plan, e: Entry): Option<Plan>
  {
    if e.name == "" || e.name in NamesOf(plan.structures) then Some(plan)
    else if e.participationPoints.None? || e.dnfPoints.None? then None
    else Some(Plan(plan.structures + [Structure(e.name, e.points, e.participationPoints.value, e.dnfPoints.value)],
                   plan.oldToNew[e.oldName := e.name]))
  }

  /** The setPoints loop over all entries; None when it raises. */
  function Planned(es: seq<Entry>): Option<Plan>
  {
    if es == [] then Some(Plan([], map[]))
    else match Planned(es[..|es| - 1])
      case None => None
      case Some(plan) => PlanStep(plan, es[|es| - 1])
  }

  function PlanOf(rows: seq<PointsRow>): Option<Plan>
  {
    Planned(Cleaned(rows))
  }

  /** The names after one pass: unchanged for a skipped row, one more for
      an accepted one. */
  lemma PlanStepNames(plan: Plan, e: Entry)
    requires PlanStep(plan, e).Some?
    ensures var next := PlanStep(plan, e).value;
      && (e.name == "" || e.name in NamesOf(plan.structures) ==> next == plan)
      && (e.name != "" && e.name !in NamesOf(plan.structures) ==>
            NamesOf(next.structures) == NamesOf(plan.structures) + [e.name]
            && next.oldToNew == plan.oldToNew[e.oldName := e.name])
  {
    if e.name != "" && e.name !in NamesOf(plan.structures) {
      var next := PlanStep(plan, e).value;
      NamesAppend(plan.structures, next.structures[|plan.structures|]);
      assert next.structures == plan.structures + [next.structures[|plan.structures|]];
    }
  }

  /** Entry i is the first to carry its non-blank name. */
  predicate FirstUse(es: seq<Entry>, i: int)
    requires 0 <= i < |es|
  {
    es[i].name != "" && forall j :: 0 <= j < i ==> es[j].name != es[i].name
  }

  /** The names of a plan are distinct and non-blank, they are exactly the
      non-blank names of the entries, and every renaming leads to one of
      them. */
  lemma {:induction false} PlanNames(es: seq<Entry>)
    requires Planned(es).Some?
    ensures var plan := Planned(es).value; var names := NamesOf(plan.structures);
      && Distinct(names)
      && (forall k :: 0 <= k < |names| ==> names[k] != "")
      && (forall n :: n in names <==> exists i :: 0 <= i < |es| && es[i].name == n && n != "")
      && (forall o :: o in plan.oldToNew ==> plan.oldToNew[o] in names)
  {
    if es != [] {
      var init := es[..|es| - 1];
      var last := es[|es| - 1];
      PlanNames(init);
      var plan0 := Planned(init).value;
      var names0 := NamesOf(plan0.structures);
      var names := NamesOf(Planned(es).value.structures);
      PlanStepNames(plan0, last);
      assert forall x :: x in names0 ==> x in names;
      assert last.name != "" ==> last.name in names;
      forall n | n in names
        ensures exists i :: 0 <= i < |es| && es[i].name == n && n != ""
      {
        if n in names0 {
          var i :| 0 <= i < |init| && init[i].name == n && n != "";
          assert es[i] == init[i];
        } else {
          assert es[|es| - 1].name == n;
        }
      }
      forall n | exists i :: 0 <= i < |es| && es[i].name == n && n != ""
        ensures n in names
      {
        var i :| 0 <= i < |es| && es[i].name == n && n != "";
        if i < |init| {
          assert init[i] == es[i];
        }
      }
    }
  }

  /** A failure in a prefix of the entries is a failure of all of them. */
  lemma {:induction false} PlanFailsOnward(es: seq<Entry>, i: nat)
    requires i <= |es| && Planned(es[..i]).None?
    ensures Planned(es).None?
    decreases |es| - i
  {
    if i < |es| {
      assert es[..i + 1][..i] == es[..i];
      PlanFailsOnward(es, i + 1);
    } else {
      assert es[..i] == es;
    }
  }

  /** setPoints raises exactly when the first entry to carry some name
      has a participation or DNF text that int() refuses. */
  lemma {:induction false} PlanFails(es: seq<Entry>)
    ensures Planned(es).None? <==>
      exists i :: 0 <= i < |es| && FirstUse(es, i) && (es[i].participationPoints.None? || es[i].dnfPoints.None?)
  {
    if es != [] {
      var n := |es| - 1;
      var init := es[..n];
      PlanFails(init);
      forall i | 0 <= i < n
        ensures FirstUse(es, i) == FirstUse(init, i)
      {
        assert es[i] == init[i];
        assert forall j :: 0 <= j < i ==> es[j] == init[j];
      }
      if Planned(init).Some? {
        PlanNames(init);
        FirstUseOfLast(es, init, NamesOf(Planned(init).value.structures));
      }
    }
  }

  /** The last entry is the first to carry its name exactly when the names
      of the entries before it do not include it. */
  lemma FirstUseOfLast(es: seq<Entry>, init: seq<Entry>, names0: seq<string>)
    requires es != [] && init == es[..|es| - 1]
    requires forall n :: n in names0 <==> exists i :: 0 <= i < |init| && init[i].name == n && n != ""
    ensures var n := |es| - 1; FirstUse(es, n) <==> es[n].name != "" && es[n].name !in names0
  {
    var n := |es| - 1;
    var last := es[n].name;
    if last != "" && last in names0 {
      var j :| 0 <= j < |init| && init[j].name == last && last != "";
      assert es[j] == init[j];
    }
    if last != "" && !FirstUse(es, n) {
      var j :| 0 <= j < n && es[j].name == last;
      assert init[j] == es[j];
    }
  }

  /** The first position of n in names. */
  function IndexOf(names: seq<string>, n: string): (k: nat)
    requires n in names
    ensures k < |names| && names[k] == n && forall j :: 0 <= j < k ==> names[j] != n
  {
    if names[0] == n then 0 else 1 + IndexOf(names[1..], n)
  }

  /** The position, among the structures setPoints builds, of the one a
      race that scored with oldName moves to: the structure renamed from
      oldName, else the first. */
  function TargetIndex(plan: Plan, oldName: string): (k: nat)
    ensures k == 0 || k < |plan.structures|
  {
    var names := NamesOf(plan.structures);
    var newName := if oldName in plan.oldToNew then plan.oldToNew[oldName] else "";
    if newName in names then IndexOf(names, newName) else 0
  }

  /** A race keeps scoring with the structure renamed from its old one:
      the target carries the new name whenever the old name was listed. */
  lemma TargetRenamed(es: seq<Entry>, oldName: string)
    requires Planned(es).Some?
    ensures var plan := Planned(es).value;
      oldName in plan.oldToNew ==>
        && TargetIndex(plan, oldName) < |plan.structures|
        && plan.structures[TargetIndex(plan, oldName)].name == plan.oldToNew[oldName]
  {
    PlanNames(es);
  }

  // ---------------------------------------------------------------- setRaces

  /** The rows of setRaces with both names stripped. */
  function Trimmed(rows: seq<(string, string)>): (t: seq<(string, string)>)
    ensures |t| == |rows| && forall i :: 0 <= i < |rows| ==> t[i] == (Strip(rows[i].0), Strip(rows[i].1))
  {
    seq(|rows|, i requires 0 <= i < |rows| => (Strip(rows[i].0), Strip(rows[i].1)))
  }

  /** The trimmed rows with a non-blank file name and a known points
      structure name, in the order given. */
  function Select(t: seq<(string, string)>, known: set<string>): seq<(string, string)>
  {
    if t == [] then []
    else Select(t[..|t| - 1], known) + (if t[|t| - 1].0 != "" && t[|t| - 1].1 in known then [t[|t| - 1]] else [])
  }

  /** setRaces keeps, stripped, each row with a non-blank file name and the
      name of a known points structure, in the order given. */
  function Kept(rows: seq<(string, string)>, known: set<string>): seq<(string, string)>
  {
    Select(Trimmed(rows), known)
  }

  /** Select keeps exactly the rows with a file name and a known structure,
      and never adds one. */
  lemma {:induction false} SelectShape(t: seq<(string, string)>, known: set<string>)
    ensures var kept := Select(t, known);
      && |kept| <= |t|
      && (forall p :: p in kept <==> p in t && p.0 != "" && p.1 in known)
  {
    if t != [] {
      SelectShape(t[..|t| - 1], known);
      assert t == t[..|t| - 1] + [t[|t| - 1]];
    }
  }

  lemma {:induction false} SelectAppend(a: seq<(string, string)>, b: seq<(string, string)>, known: set<string>)
    ensures Select(a + b, known) == Select(a, known) + Select(b, known)
    decreases |b|
  {
    if b == [] {
      assert a + b == a;
    } else {
      var n := |b| - 1;
      assert (a + b)[..|a + b| - 1] == a + b[..n];
      assert (a + b)[|a + b| - 1] == b[n];
      SelectAppend(a, b[..n], known);
    }
  }

  lemma {:induction false} SelectTwice(t: seq<(string, string)>, known: set<string>)
    ensures Select(Select(t, known), known) == Select(t, known)
  {
    if t != [] {
      var init := t[..|t| - 1];
      SelectTwice(init, known);
      var tail := if t[|t| - 1].0 != "" && t[|t| - 1].1 in known then [t[|t| - 1]] else [];
      SelectAppend(Select(init, known), tail, known);
      if tail != [] {
        assert tail[..0] == [];
      }
    }
  }

  lemma StripTwice(s: string)
    ensures Strip(Strip(s)) == Strip(s)
  {
    StripNoSpaceAtEnds(Strip(s));
  }

  /** Rows that are already stripped are their own trimming. */
  lemma TrimmedStripped(t: seq<(string, string)>)
    requires forall i :: 0 <= i < |t| ==> Strip(t[i].0) == t[i].0 && Strip(t[i].1) == t[i].1
    ensures Trimmed(t) == t
  {
  }

  /** Every row setRaces keeps is stripped, has a file name and a known
      structure; every row that has them is kept. */
  lemma KeptShape(rows: seq<(string, string)>, known: set<string>)
    ensures var kept := Kept(rows, known);
      && |kept| <= |rows|
      && (forall p :: p in kept ==> p.0 != "" && p.1 in known && Strip(p.0) == p.0 && Strip(p.1) == p.1)
      && (forall i :: 0 <= i < |rows| && Strip(rows[i].0) != "" && Strip(rows[i].1) in known ==>
            (Strip(rows[i].0), Strip(rows[i].1)) in kept)
  {
    var t := Trimmed(rows);
    SelectShape(t, known);
    forall p | p in Kept(rows, known)
      ensures Strip(p.0) == p.0 && Strip(p.1) == p.1
    {
      var i :| 0 <= i < |t| && t[i] == p;
      StripTwice(rows[i].0);
      StripTwice(rows[i].1);
    }
  }

  /** Feeding setRaces the rows it kept keeps them all. */
  lemma KeptIdempotent(rows: seq<(string, string)>, known: set<string>)
    ensures Kept(Kept(rows, known), known) == Kept(rows, known)
  {
    var kept := Kept(rows, known);
    KeptShape(rows, known);
    TrimmedStripped(kept);
    SelectTwice(Trimmed(rows), known);
  }

  // ---------------------------------------------------------------- the series

  /** A race of the series: its results file and the points structure it
      scores with; setPoints moves it to another structure in place. */
  class Race {
    const fileName: string
    var pointStructure: PointStructure

    constructor(fileName: string, pointStructure: PointStructure)
      ensures this.fileName == fileName && this.pointStructure == pointStructure
    {
      this.fileName := fileName;
      this.pointStructure := pointStructure;
    }
  }

  /** The races whose file name is not name, in order. */
  function Without(races: seq<Race>, name: string): seq<Race>
  {
    if races == [] then []
    else Without(races[..|races| - 1], name) + (if races[|races| - 1].fileName != name then [races[|races| - 1]] else [])
  }

  /** removeRace drops every race of that file and keeps the others in
      order; the list shrinks exactly when some race had that file. */
  lemma {:induction false} WithoutShape(races: seq<Race>, name: string)
    ensures var rest := Without(races, name);
      && (forall r :: r in rest <==> r in races && r.fileName != name)
      && (|rest| == |races| <==> forall r :: r in races ==> r.fileName != name)
      && |rest| <= |races|
  {
    if races != [] {
      var init := races[..|races| - 1];
      WithoutShape(init, name);
      assert races == init + [races[|races| - 1]];
    }
  }

  lemma {:induction false} WithoutDistinct(races: seq<Race>, name: string)
    requires Distinct(races)
    ensures Distinct(Without(races, name))
  {
    if races != [] {
      var init := races[..|races| - 1];
      WithoutDistinct(init, name);
      WithoutShape(init, name);
    }
  }

  /** dict((p.name, p) for p in ps): each name maps to the last structure
      carrying it. */
  function ByName(ps: seq<PointStructure>): (m: map<string, PointStructure>)
    ensures forall n :: n in m <==> exists k :: 0 <= k < |ps| && ps[k].name == n
    ensures forall n :: n in m ==> m[n] in ps && m[n].name == n
  {
    if ps == [] then map[]
    else
      var init := ps[..|ps| - 1];
      var m0 := ByName(init);
      assert forall n :: n in m0 ==> exists k :: 0 <= k < |ps| && ps[k].name == n by {
        forall n | n in m0 ensures exists k :: 0 <= k < |ps| && ps[k].name == n {
          var k :| 0 <= k < |init| && init[k].name == n;
          assert ps[k] == init[k];
        }
      }
      m0[ps[|ps| - 1].name := ps[|ps| - 1]]
  }

  /** The row getStr shows for a structure in the points editor. */
  function RowOf(p: PointStructure): (row: PointsRow)
    reads p
    requires p.Valid()
    ensures row.name == row.oldName == p.name
    ensures ParseTable(row.points) == p.pointsForPlace
    ensures PyInt(row.participationPoints) == Some(p.participationPoints)
    ensures PyInt(row.dnfPoints) == Some(p.dnfPoints)
  {
    IntToStrRoundTrip(p.participationPoints);
    IntToStrRoundTrip(p.dnfPoints);
    PointsRow(p.name, p.name, p.GetStr(), IntToStr(p.participationPoints), IntToStr(p.dnfPoints))
  }

  function RowsOf(ps: seq<PointStructure>): (rows: seq<PointsRow>)
    reads ps
    requires forall p :: p in ps ==> p.Valid()
    ensures |rows| == |ps| && forall k :: 0 <= k < |ps| ==> rows[k] == RowOf(ps[k])
  {
    seq(|ps|, k requires 0 <= k < |ps| && ps[k].Valid() reads ps => RowOf(ps[k]))
  }

  function RaceRowsOf(rs: seq<Race>): (rows: seq<(string, string)>)
    reads rs
    ensures |rows| == |rs|
    ensures forall k :: 0 <= k < |rs| ==> rows[k] == (rs[k].fileName, rs[k].pointStructure.name)
  {
    seq(|rs|, k requires 0 <= k < |rs| reads rs => (rs[k].fileName, rs[k].pointStructure.name))
  }

  /** p was built by setPoints from the structure s. */
  predicate Built(p: PointStructure, s: Structure)
    reads p
  {
    p.name == s.name && p.pointsForPlace == ParseTable(s.points)
    && p.participationPoints == s.participationPoints && p.dnfPoints == s.dnfPoints
  }

  /** p is PointStructure('Regular'): the OCA O-Cup table and no other points. */
  predicate IsDefault(p: PointStructure)
    reads p
  {
    p.name == DEFAULT_POINT_STRUCTURE_NAME && p.pointsForPlace == TableOf(OCA_O_CUP)
    && p.participationPoints == 0 && p.dnfPoints == 0
  }

  /** Every structure holds a ranking and there is at least one; each race
      is listed once and scores with a listed structure. */
  predicate Scoring(races: seq<Race>, ps: seq<PointStructure>)
    reads races, ps
  {
    && |ps| > 0
    && (forall p :: p in ps ==> p.Valid())
    && Distinct(races)
    && (forall r :: r in races ==> r.pointStructure in ps)
  }

  /** The first loop of setPoints, over the rows as it reads them: a new
      structure for each entry whose name is set and not yet taken,
      remembering which old name became which; ok is false when int()
      raises on an entry it reaches. */
  method BuildStructures(es: seq<Entry>)
    returns (ok: bool, newPointStructures: seq<PointStructure>, oldToNewName: map<string, string>, newPS: map<string, PointStructure>)
    ensures ok <==> Planned(es).Some?
    ensures ok ==> var plan := Planned(es).value;
      && (forall p :: p in newPointStructures ==> fresh(p))
      && Building(es, plan, oldToNewName, newPointStructures, newPS)
      && AllBuilt(newPointStructures, plan.structures)
  {
    ghost var plan := Plan([], map[]);
    newPointStructures := [];
    oldToNewName := map[];
    newPS := map[];
    for i := 0 to |es|
      invariant Building(es[..i], plan, oldToNewName, newPointStructures, newPS)
      invariant AllBuilt(newPointStructures, plan.structures)
      invariant forall p :: p in newPointStructures ==> fresh(p)
    {
      var e := es[i];
      PlannedPrefix(es, i);
      if e.name == "" || e.name in newPS {
        continue;
      }
      if e.participationPoints.None? || e.dnfPoints.None? {
        PlanFailsOnward(es, i + 1);
        return false, [], map[], map[];
      }
      var s := Structure(e.name, e.points, e.participationPoints.value, e.dnfPoints.value);
      var ps := NewStructure(s, newPointStructures, plan.structures);
      BuildingStep(es[..i], plan, oldToNewName, newPointStructures, newPS, e, ps);
      oldToNewName := oldToNewName[e.oldName := e.name];
      newPS := newPS[e.name := ps];
      newPointStructures := newPointStructures + [ps];
      plan := Plan(plan.structures + [s], plan.oldToNew[e.oldName := e.name]);
    }
    assert es[..|es|] == es;
    ok := true;
  }

  /** Part way through the first loop of setPoints: plan is what the
      entries so far give, and the loop's variables agree with it. */
  ghost predicate Building(es: seq<Entry>, plan: Plan, oldToNewName: map<string, string>,
                           newPointStructures: seq<PointStructure>, newPS: map<string, PointStructure>)
  {
    && Planned(es) == Some(plan)
    && oldToNewName == plan.oldToNew
    && FindsByName(newPS, newPointStructures, NamesOf(plan.structures))
  }

  /** A new structure for an entry whose name is new keeps the loop's
      variables in step with the plan. */
  lemma BuildingStep(es: seq<Entry>, plan: Plan, oldToNewName: map<string, string>,
                     newPointStructures: seq<PointStructure>, newPS: map<string, PointStructure>,
                     e: Entry, p: PointStructure)
    requires Building(es, plan, oldToNewName, newPointStructures, newPS)
    requires e.name != "" && e.name !in newPS && e.participationPoints.Some? && e.dnfPoints.Some?
    ensures var s := Structure(e.name, e.points, e.participationPoints.value, e.dnfPoints.value);
      Building(es + [e], Plan(plan.structures + [s], plan.oldToNew[e.oldName := e.name]),
               oldToNewName[e.oldName := e.name], newPointStructures + [p], newPS[e.name := p])
  {
    var s := Structure(e.name, e.points, e.participationPoints.value, e.dnfPoints.value);
    assert (es + [e])[..|es|] == es;
    NamesAppend(plan.structures, s);
    FindsByNameExtend(newPS, newPointStructures, NamesOf(plan.structures), e.name, p);
  }

  /** PointStructure(name, points, participationPoints, dnfPoints) for the
      accepted row s, appended to the structures built so far. */
  method NewStructure(s: Structure, newPointStructures: seq<PointStructure>, ghost ss: seq<Structure>)
    returns (ps: PointStructure)
    requires AllBuilt(newPointStructures, ss)
    ensures fresh(ps) && AllBuilt(newPointStructures + [ps], ss + [s])
  {
    ps := new PointStructure(s.name, Some(s.points), s.participationPoints, s.dnfPoints);
    AllBuiltExtend(newPointStructures, ss, ps, s);
  }

  /** Each new structure holds a ranking and was built from its plan. */
  ghost predicate AllBuilt(newPointStructures: seq<PointStructure>, ss: seq<Structure>)
    reads newPointStructures
  {
    && |newPointStructures| == |ss|
    && forall k :: 0 <= k < |ss| ==> newPointStructures[k].Valid() && Built(newPointStructures[k], ss[k])
  }

  lemma AllBuiltExtend(newPointStructures: seq<PointStructure>, ss: seq<Structure>, p: PointStructure, s: Structure)
    requires AllBuilt(newPointStructures, ss) && p.Valid() && Built(p, s)
    ensures AllBuilt(newPointStructures + [p], ss + [s])
  {
  }

  /** newPS: each name maps to the structure at its place in names. */
  ghost predicate FindsByName(newPS: map<string, PointStructure>, newPointStructures: seq<PointStructure>, names: seq<string>)
  {
    && |newPointStructures| == |names|
    && (forall n :: n in newPS <==> n in names)
    && forall n :: n in newPS ==> newPS[n] == newPointStructures[IndexOf(names, n)]
  }

  lemma FindsByNameExtend(newPS: map<string, PointStructure>, newPointStructures: seq<PointStructure>, names: seq<string>, n: string, p: PointStructure)
    requires FindsByName(newPS, newPointStructures, names) && n !in names
    ensures FindsByName(newPS[n := p], newPointStructures + [p], names + [n])
  {
    forall m | m in newPS[n := p]
      ensures (newPointStructures + [p])[IndexOf(names + [n], m)] == newPS[n := p][m]
    {
      IndexOfAppend(names, n, m);
    }
  }

  lemma {:induction false} IndexOfAppend(names: seq<string>, n: string, m: string)
    requires m in names + [n]
    ensures IndexOf(names + [n], m) == if m in names then IndexOf(names, m) else |names|
  {
    if names != [] && names[0] != m {
      assert (names + [n])[1..] == names[1..] + [n];
      IndexOfAppend(names[1..], n, m);
    }
  }

  /** One more entry of the setPoints loop is one more PlanStep. */
  lemma PlannedPrefix(es: seq<Entry>, i: nat)
    requires i < |es|
    ensures Planned(es[..i + 1]) == match Planned(es[..i])
      case None => None
      case Some(plan) => PlanStep(plan, es[i])
  {
    assert es[..i + 1][..i] == es[..i];
  }

  /** The structures, renaming and lookup of setPoints agree with plan:
      one structure per planned one ('Regular' alone when none is), in
      order, and newPS finds each by name. */
  ghost predicate Matches(plan: Plan, newPointStructures: seq<PointStructure>, oldToNewName: map<string, string>, newPS: map<string, PointStructure>)
  {
    && (|plan.structures| > 0 ==> |newPointStructures| == |plan.structures|)
    && (|plan.structures| == 0 ==> |newPointStructures| == 1)
    && oldToNewName == plan.oldToNew
    && (|plan.structures| > 0 ==> FindsByName(newPS, newPointStructures, NamesOf(plan.structures)))
    && (|plan.structures| == 0 ==> |newPS| == 0)
  }

  /** The structure a race moves to is the one at its target index. */
  lemma TargetMatches(plan: Plan, newPointStructures: seq<PointStructure>, oldToNewName: map<string, string>, newPS: map<string, PointStructure>, oldName: string)
    requires Matches(plan, newPointStructures, oldToNewName, newPS)
    ensures var newName := if oldName in oldToNewName then oldToNewName[oldName] else "";
      && TargetIndex(plan, oldName) < |newPointStructures|
      && newPointStructures[TargetIndex(plan, oldName)] == (if newName in newPS then newPS[newName] else newPointStructures[0])
  {
  }

  lemma RaceRowsAppend(rs: seq<Race>, r: Race)
    ensures RaceRowsOf(rs + [r]) == RaceRowsOf(rs) + [(r.fileName, r.pointStructure.name)]
  {
    assert forall k :: 0 <= k < |rs| ==> (rs + [r])[k] == rs[k];
  }

  /** Race(fileName, ps[pname]) for each stripped row whose file name is
      set and whose structure name ps knows, in order. */
  method NewRaces(t: seq<(string, string)>, ps: map<string, PointStructure>) returns (newRaces: seq<Race>)
    requires forall n :: n in ps ==> ps[n].name == n
    ensures RaceRowsOf(newRaces) == Select(t, ps.Keys) && Distinct(newRaces)
    ensures forall r :: r in newRaces ==>
      && fresh(r)
      && r.pointStructure.name in ps
      && ps[r.pointStructure.name] == r.pointStructure
  {
    newRaces := [];
    for i := 0 to |t|
      invariant RaceRowsOf(newRaces) == Select(t[..i], ps.Keys) && Distinct(newRaces)
      invariant forall r :: r in newRaces ==>
        && fresh(r)
        && r.pointStructure.name in ps
        && ps[r.pointStructure.name] == r.pointStructure
    {
      var (fileName, pname) := t[i];
      assert t[..i + 1] == t[..i] + [t[i]];
      assert (t[..i] + [t[i]])[..i] == t[..i];
      if fileName == "" {
        continue;
      }
      if pname !in ps {
        continue;
      }
      var race := new Race(fileName, ps[pname]);
      RaceRowsAppend(newRaces, race);
      newRaces := newRaces + [race];
    }
    assert t[..|t|] == t;
  }

  class SeriesModel {
    var races: seq<Race>
    var pointStructures: seq<PointStructure>
    var categorySequence: map<string, int>
    var categorySequencePrevious: map<string, int>
    var changed: bool

    /** The races score with listed structures, and both category orders
        number their categories one-to-one. */
    predicate Valid()
      reads this, races, pointStructures
    {
      && Scoring(races, pointStructures)
      && Injective(categorySequence)
      && Injective(categorySequencePrevious)
    }

    /** [(p.name, p.name, p.getStr(), ...)]: the rows setPoints compares with. */
    function PointsRows(): (rows: seq<PointsRow>)
      reads this, pointStructures
      requires forall p :: p in pointStructures ==> p.Valid()
      ensures |rows| == |pointStructures|
      ensures forall k :: 0 <= k < |rows| ==> rows[k] == RowOf(pointStructures[k])
    {
      RowsOf(pointStructures)
    }

    /** [(r.fileName, r.pointStructure.name)]: the rows setRaces compares with. */
    function RaceRows(): (rows: seq<(string, string)>)
      reads this, races
      ensures |rows| == |races|
      ensures forall k :: 0 <= k < |rows| ==> rows[k] == (races[k].fileName, races[k].pointStructure.name)
    {
      RaceRowsOf(races)
    }

    /** After setPoints built plan: the structures are those of the plan, or
        'Regular' alone when it has none, and the race k, which scored with
        the structure named oldRows[k].1, now scores with its target. */
    predicate Rebuilt(plan: Plan, oldRows: seq<(string, string)>)
      reads this, races, pointStructures
    {
      && (|plan.structures| > 0 ==>
            && |pointStructures| == |plan.structures|
            && forall k :: 0 <= k < |pointStructures| ==> Built(pointStructures[k], plan.structures[k]))
      && (|plan.structures| == 0 ==> |pointStructures| == 1 && IsDefault(pointStructures[0]))
      && |oldRows| == |races|
      && forall k :: 0 <= k < |races| ==>
           && TargetIndex(plan, oldRows[k].1) < |pointStructures|
           && races[k].pointStructure == pointStructures[TargetIndex(plan, oldRows[k].1)]
    }

    /** SeriesModel(): no races, the one structure 'Regular', no category order. */
    constructor()
      ensures Valid() && races == [] && !changed
      ensures |pointStructures| == 1 && IsDefault(pointStructures[0]) && fresh(pointStructures[0])
      ensures categorySequence == map[] && categorySequencePrevious == map[]
    {
      var regular := new PointStructure(DEFAULT_POINT_STRUCTURE_NAME, None, 0, 0);
      races := [];
      pointStructures := [regular];
      categorySequence := map[];
      categorySequencePrevious := map[];
      changed := false;
    }
  
    /** setPoints(rows): nothing happens when rows are the rows shown now.
        Otherwise changed is raised, and either int() raises (ok is false
        and nothing else changes) or the structures are rebuilt from the
        rows and each race moves to the structure renamed from its own. */
    method SetPoints(rows: seq<PointsRow>) returns (ok: bool)
      requires Valid()
      modifies this, races
      ensures Valid()
      ensures races == old(races)
      ensures categorySequence == old(categorySequence) && categorySequencePrevious == old(categorySequencePrevious)
      ensures rows == old(PointsRows()) ==> ok && changed == old(changed)
      ensures rows != old(PointsRows()) ==> changed && (ok <==> PlanOf(rows).Some?)
      ensures !ok || rows == old(PointsRows()) ==>
        && pointStructures == old(pointStructures)
        && forall k :: 0 <= k < |races| ==> races[k].pointStructure == old(races[k].pointStructure)
      ensures ok && rows != old(PointsRows()) ==>
        && Rebuilt(PlanOf(rows).value, old(RaceRows()))
        && forall p :: p in pointStructures ==> fresh(p)
    {
      if rows == PointsRows() {
        return true;
      }
      changed := true;
      ok := Rebuild(Cleaned(rows));
    }

    /** The rest of setPoints, over the rows as it reads them: build the
        structures; when int() raises, stop with nothing else changed;
        otherwise move the races and install the structures. */
    method Rebuild(es: seq<Entry>) returns (ok: bool)
      requires Valid()
      modifies this, races
      ensures Valid()
      ensures races == old(races) && changed == old(changed)
      ensures categorySequence == old(categorySequence) && categorySequencePrevious == old(categorySequencePrevious)
      ensures ok <==> Planned(es).Some?
      ensures !ok ==>
        && pointStructures == old(pointStructures)
        && forall k :: 0 <= k < |races| ==> races[k].pointStructure == old(races[k].pointStructure)
      ensures ok ==>
        && Rebuilt(Planned(es).value, old(RaceRows()))
        && forall p :: p in pointStructures ==> fresh(p)
    {
      ghost var oldRows := RaceRows();
      var newPointStructures, oldToNewName, newPS;
      ok, newPointStructures, oldToNewName, newPS := BuildStructures(es);
      if !ok {
        return;
      }
      ghost var plan := Planned(es).value;
      if |newPointStructures| == 0 {
        var regular := new PointStructure(DEFAULT_POINT_STRUCTURE_NAME, None, 0, 0);
        newPointStructures := [regular];
      }
      Install(plan, oldRows, newPointStructures, oldToNewName, newPS);
    }

    /** The end of setPoints: every race moves to its new structure, then
        the new structures replace the old ones. */
    method Install(ghost plan: Plan, ghost oldRows: seq<(string, string)>, newPointStructures: seq<PointStructure>,
                   oldToNewName: map<string, string>, newPS: map<string, PointStructure>)
      requires Valid() && oldRows == RaceRows()
      requires Matches(plan, newPointStructures, oldToNewName, newPS)
      requires |plan.structures| > 0 ==> AllBuilt(newPointStructures, plan.structures)
      requires |plan.structures| == 0 ==> IsDefault(newPointStructures[0])
      requires forall p :: p in newPointStructures ==> p.Valid()
      modifies this, races
      ensures Valid() && Rebuilt(plan, oldRows)
      ensures races == old(races) && changed == old(changed)
      ensures categorySequence == old(categorySequence) && categorySequencePrevious == old(categorySequencePrevious)
      ensures pointStructures == newPointStructures
    {
      MoveRaces(plan, oldRows, newPointStructures, oldToNewName, newPS);
      pointStructures := newPointStructures;
    }

    /** The last loop of setPoints: each race moves to
        newPS.get(oldToNewName.get(its structure's name, ''), the first). */
    method MoveRaces(ghost plan: Plan, ghost oldRows: seq<(string, string)>, newPointStructures: seq<PointStructure>,
                     oldToNewName: map<string, string>, newPS: map<string, PointStructure>)
      requires Distinct(races) && oldRows == RaceRows()
      requires Matches(plan, newPointStructures, oldToNewName, newPS)
      modifies races
      ensures unchanged(newPointStructures)
      ensures forall r :: r in races ==> r.pointStructure in newPointStructures
      ensures forall k :: 0 <= k < |races| ==>
        && TargetIndex(plan, oldRows[k].1) < |newPointStructures|
        && races[k].pointStructure == newPointStructures[TargetIndex(plan, oldRows[k].1)]
    {
      for i := 0 to |races|
        invariant forall k :: 0 <= k < i ==>
          && TargetIndex(plan, oldRows[k].1) < |newPointStructures|
          && races[k].pointStructure == newPointStructures[TargetIndex(plan, oldRows[k].1)]
        invariant forall k :: i <= k < |races| ==> races[k].pointStructure == old(races[k].pointStructure)
      {
        var r := races[i];
        var oldName := r.pointStructure.name;
        var newName := if oldName in oldToNewName then oldToNewName[oldName] else "";
        var target := if newName in newPS then newPS[newName] else newPointStructures[0];
        TargetMatches(plan, newPointStructures, oldToNewName, newPS, oldName);
        r.pointStructure := target;
      }
    }

    /** setRaces(rows): nothing happens when rows are the rows shown now.
        Otherwise changed is raised and the races become new races for the
        rows kept, each scoring with the structure of its name. */
    method SetRaces(rows: seq<(string, string)>)
      requires Valid()
      modifies this
      ensures Valid()
      ensures pointStructures == old(pointStructures)
      ensures categorySequence == old(categorySequence) && categorySequencePrevious == old(categorySequencePrevious)
      ensures rows == old(RaceRows()) ==> races == old(races) && changed == old(changed)
      ensures rows != old(RaceRows()) ==>
        && changed
        && RaceRows() == Kept(rows, ByName(pointStructures).Keys)
        && forall r :: r in races ==>
             && fresh(r)
             && r.pointStructure.name in ByName(pointStructures)
             && ByName(pointStructures)[r.pointStructure.name] == r.pointStructure
    {
      if rows == RaceRows() {
        return;
      }
      changed := true;
      ReplaceRaces(Trimmed(rows));
    }

    /** The loop of setRaces, over the rows with both names stripped: a new
        race for each row whose file name is set and whose structure name is
        known, in order. */
    method ReplaceRaces(t: seq<(string, string)>)
      requires Valid()
      modifies this
      ensures Valid()
      ensures pointStructures == old(pointStructures) && changed == old(changed)
      ensures categorySequence == old(categorySequence) && categorySequencePrevious == old(categorySequencePrevious)
      ensures RaceRows() == Select(t, ByName(pointStructures).Keys)
      ensures forall r :: r in races ==>
        && fresh(r)
        && r.pointStructure.name in ByName(pointStructures)
        && ByName(pointStructures)[r.pointStructure.name] == r.pointStructure
    {
      var ps := ByName(pointStructures);
      var newRaces := NewRaces(t, ps);
      ghost var rows := RaceRowsOf(newRaces);
      races := newRaces;
      assert RaceRows() == rows;
      assert forall r :: r in races ==> r.pointStructure in pointStructures;
    }

    /** addRace(name): a new race of that file, scoring with the first structure. */
    method AddRace(name: string)
      requires Valid()
      modifies this
      ensures Valid() && changed
      ensures |races| == |old(races)| + 1 && races[..|old(races)|] == old(races)
      ensures fresh(races[|races| - 1]) && races[|races| - 1].fileName == name
      ensures races[|races| - 1].pointStructure == pointStructures[0]
      ensures pointStructures == old(pointStructures)
      ensures categorySequence == old(categorySequence) && categorySequencePrevious == old(categorySequencePrevious)
    {
      changed := true;
      var race := new Race(name, pointStructures[0]);
      races := races + [race];
    }

    /** removeRace(name): every race of that file goes; changed is raised
        only when one did. */
    method RemoveRace(name: string)
      requires Valid()
      modifies this
      ensures Valid()
      ensures races == Without(old(races), name)
      ensures changed == (old(changed) || |races| != |old(races)|)
      ensures pointStructures == old(pointStructures)
      ensures categorySequence == old(categorySequence) && categorySequencePrevious == old(categorySequencePrevious)
    {
      var raceCount := |races|;
      WithoutShape(races, name);
      WithoutDistinct(races, name);
      races := Without(races, name);
      if raceCount != |races| {
        changed := true;
      }
    }

    /** removeAllRaces(): no races left; changed is raised only when there were some. */
    method RemoveAllRaces()
      requires Valid()
      modifies this
      ensures Valid() && races == []
      ensures changed == (old(changed) || old(races) != [])
      ensures pointStructures == old(pointStructures)
      ensures categorySequence == old(categorySequence) && categorySequencePrevious == old(categorySequencePrevious)
    {
      if races != [] {
        races := [];
        changed := true;
      }
    }

    /** getCategoryNamesSorted(): the categories, each once, by position. */
    function GetCategoryNamesSorted(): (names: seq<string>)
      reads this
      requires Injective(categorySequence)
      ensures Distinct(names) && forall c :: c in names <==> c in categorySequence
      ensures InPositionOrder(names, categorySequence)
    {
      CategoriesInOrder(categorySequence)
    }

    /** setCategorySequence(list): each category numbered by its last
        position; changed is raised only when the numbering differs. That a
        list without repeats reads back unchanged is CategoriesRoundTrip. */
    method SetCategorySequence(categoryList: seq<string>)
      requires Valid()
      modifies this
      ensures Valid()
      ensures categorySequence == IndexMap(categoryList)
      ensures changed == (old(changed) || old(categorySequence) != categorySequence)
      ensures races == old(races) && pointStructures == old(pointStructures)
      ensures categorySequencePrevious == old(categorySequencePrevious)
    {
      var categorySequenceNew := IndexMap(categoryList);
      if categorySequence != categorySequenceNew {
        categorySequence := categorySequenceNew;
        changed := true;
      }
    }

    /** harmonizeCategorySequence(raceResults), given the category of each
        result: the categories raced, old ones in their old order and new
        ones after them in sorted order; the order is remembered as the
        previous one; changed is raised only when the numbering differs. */
    method HarmonizeCategorySequence(raceCategories: seq<string>)
      requires Valid()
      modifies this
      ensures Valid()
      ensures var raced := set c | c in raceCategories;
        var base := old(if |categorySequence| > 0 then categorySequence else categorySequencePrevious);
        && Harmonizes(categorySequence, base, raced)
        && categorySequencePrevious == (if |raced| == 0 then old(categorySequencePrevious) else categorySequence)
      ensures changed == (old(changed) || old(categorySequence) != categorySequence)
      ensures races == old(races) && pointStructures == old(pointStructures)
    {
      var categorySequenceSave := categorySequence;
      var categoriesFromRaces := set c | c in raceCategories;
      if |categoriesFromRaces| == 0 {
        if |categorySequence| > 0 {
          categorySequence := map[];
          changed := true;
        }
        return;
      }
      var base := if |categorySequence| > 0 then categorySequence else categorySequencePrevious;
      var categorySequenceNew := NumberRaced(base, categoriesFromRaces);
      if categorySequenceSave != categorySequenceNew {
        changed := true;
      }
      categorySequence := categorySequenceNew;
      categorySequencePrevious := categorySequenceNew;
    }
  }
}
