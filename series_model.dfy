/** The series model of SeriesMgr: race names taken from file paths, the
    points structures that turn a finishing place into points, and the
    series itself (its races, its points structures and the order of its
    categories), with the "changed" flag every edit maintains. */
module Series {
  import opened PyText
  import opened Sorting

  // ---------------------------------------------------------------- race names

  /** s.rfind(c): the index of the last c in s, or -1. */
  function RFind(s: string, c: char): (i: int)
    ensures -1 <= i < |s|
    ensures i >= 0 ==> s[i] == c
    ensures forall k :: i < k < |s| ==> s[k] != c
  {
    if s == [] then -1
    else if s[|s| - 1] == c then |s| - 1
    else RFind(s[..|s| - 1], c)
  }

  /** os.path.basename(p) on a POSIX path: what follows the last '/'. */
  function BaseName(p: string): (b: string)
    ensures forall k :: 0 <= k < |b| ==> b[k] != '/'
    ensures |b| <= |p| && b == p[|p| - |b|..]
    ensures |b| < |p| ==> p[|p| - |b| - 1] == '/'
  {
    p[RFind(p, '/') + 1..]
  }

  /** Whether a character other than '.' comes before index d. */
  predicate NotOnlyDots(s: string, d: int)
    requires 0 <= d <= |s|
  {
    exists k :: 0 <= k < d && s[k] != '.'
  }

  /** A name has an extension when its last '.' follows some character other
      than '.' (".profile" and "..x" have none). */
  predicate HasExtension(b: string)
  {
    exists d :: 0 <= d < |b| && b[d] == '.' && (forall k :: d < k < |b| ==> b[k] != '.') && NotOnlyDots(b, d)
  }

  /** os.path.splitext(b)[0] for a name without '/': the name without its
      extension. */
  function StripExt(b: string): (r: string)
    ensures |r| <= |b| && r == b[..|r|]
    ensures r != b <==> HasExtension(b)
    ensures r != b ==> b[|r|] == '.' && forall k :: |r| < k < |b| ==> b[k] != '.'
  {
    var d := RFind(b, '.');
    if d > 0 && NotOnlyDots(b, d) then b[..d] else b
  }

  /** The characters that end up as word gaps in a race name. */
  predicate IsGap(c: char)
  {
    c == '-' || c == ' '
  }

  function GapCount(s: string): (n: nat)
    ensures n <= |s|
  {
    if s == [] then 0 else (if IsGap(s[|s| - 1]) then 1 else 0) + GapCount(s[..|s| - 1])
  }

  /** Character k of the race name made from stem: every '-' and ' ' is a
      gap; the first two gaps are written '-' and the rest ' '. */
  function NameChar(stem: string, k: nat): char
    requires k < |stem|
  {
    if IsGap(stem[k]) then (if GapCount(stem[..k]) < 2 then '-' else ' ') else stem[k]
  }

  /** Counting spaces after '-' became ' ' counts the gaps of the original. */
  lemma {:induction false} GapsAsSpaces(a: string, b: string)
    requires |a| == |b|
    requires forall k :: 0 <= k < |a| ==> (a[k] == ' ' <==> IsGap(b[k]))
    ensures Count(a, ' ') == GapCount(b)
    decreases |a|
  {
    if a != [] {
      GapsAsSpaces(a[..|a| - 1], b[..|b| - 1]);
    }
  }

  /** RaceNameFromPath: the file name without directory and extension, with
      trailing '-' removed, '-' turned into spaces and the first two spaces
      turned back into '-'. */
  method RaceNameFromPath(p: string) returns (raceName: string)
    ensures var stem := StripExt(BaseName(p));
      && |raceName| <= |stem|
      && (raceName == [] || stem[|raceName| - 1] != '-')
      && (forall k :: |raceName| <= k < |stem| ==> stem[k] == '-')
      && (forall k :: 0 <= k < |raceName| ==> raceName[k] == NameChar(stem, k))
  {
    raceName := NameFromStem(StripExt(BaseName(p)));
  }

  /** The part of RaceNameFromPath after os.path.splitext. */
  method NameFromStem(stem: string) returns (raceName: string)
    ensures |raceName| <= |stem|
    ensures raceName == [] || stem[|raceName| - 1] != '-'
    ensures forall k :: |raceName| <= k < |stem| ==> stem[k] == '-'
    ensures forall k :: 0 <= k < |raceName| ==> raceName[k] == NameChar(stem, k)
  {
    raceName := stem;
    while |raceName| > 0 && raceName[|raceName| - 1] == '-'
      invariant |raceName| <= |stem| && raceName == stem[..|raceName|]
      invariant forall k :: |raceName| <= k < |stem| ==> stem[k] == '-'
    {
      raceName := raceName[..|raceName| - 1];
    }
    NameChars(raceName, stem);
    raceName := ReplaceAll(raceName, '-', ' ');
    raceName := ReplaceFirst(raceName, ' ', '-', 2);
  }

  /** The two replacements on a prefix of stem spell NameChar. */
  lemma NameChars(trimmed: string, stem: string)
    requires |trimmed| <= |stem| && trimmed == stem[..|trimmed|]
    ensures var r := ReplaceFirst(ReplaceAll(trimmed, '-', ' '), ' ', '-', 2);
      |r| == |trimmed| && forall k :: 0 <= k < |r| ==> r[k] == NameChar(stem, k)
  {
    var spaced := ReplaceAll(trimmed, '-', ' ');
    var r := ReplaceFirst(spaced, ' ', '-', 2);
    forall k | 0 <= k < |r|
      ensures r[k] == NameChar(stem, k)
    {
      ReplaceFirstAt(spaced, ' ', '-', 2, k);
      assert trimmed[..k] == stem[..k];
      GapsAsSpaces(spaced[..k], stem[..k]);
    }
  }

  // ---------------------------------------------------------------- points tables

  /** The order sorted(..., reverse=True) puts points in. */
  predicate Desc(a: int, b: int)
  {
    a >= b
  }

  lemma DescIsPreorder()
    ensures TotalPreorder(Desc) && forall a, b :: Desc(a, b) && Desc(b, a) ==> a == b
  {
  }

  lemma DescKeys(vs: seq<int>)
    ensures DistinctKeys(vs, Desc)
  {
  }

  /** The places 1..n. */
  function Places(n: nat): (s: set<int>)
    ensures forall i :: i in s <==> 1 <= i <= n
    ensures |s| == n
  {
    if n == 0 then {} else
      var s := Places(n - 1) + {n};
      assert n !in Places(n - 1);
      s
  }

  /** A pointsForPlace table: its keys are exactly the places 1..len. */
  predicate IsTable(m: map<int, int>)
  {
    m.Keys == Places(|m|)
  }

  /** dict((i + 1, v) for i, v in enumerate(vs)) */
  function TableOf(vs: seq<int>): (m: map<int, int>)
    ensures IsTable(m) && |m| == |vs|
    ensures forall i :: 1 <= i <= |vs| ==> m[i] == vs[i - 1]
  {
    var m := map i | i in Places(|vs|) :: vs[i - 1];
    assert m.Keys == Places(|vs|);
    m
  }

  /** The points of places 1..n in place order. */
  function InPlaceOrder(m: map<int, int>, n: nat): (vs: seq<int>)
    requires forall i :: 1 <= i <= n ==> i in m
    ensures |vs| == n && forall i :: 0 <= i < n ==> vs[i] == m[i + 1]
  {
    if n == 0 then [] else InPlaceOrder(m, n - 1) + [m[n]]
  }

  /** A table is the table of its points in place order. */
  lemma TableOfInPlaceOrder(m: map<int, int>)
    requires IsTable(m)
    ensures TableOf(InPlaceOrder(m, |m|)) == m
  {
    var t := TableOf(InPlaceOrder(m, |m|));
    assert t.Keys == m.Keys;
  }

  lemma InPlaceOrderOfTable(vs: seq<int>)
    ensures InPlaceOrder(TableOf(vs), |vs|) == vs
  {
  }

  /** The tokens setStr reads: commas count as whitespace. */
  function Tokens(s: string): (ts: seq<string>)
    ensures forall k :: 0 <= k < |ts| ==> ts[k] != [] && NoSpace(ts[k]) && !Contains(ts[k], ',')
  {
    var t := ReplaceAll(s, ',', ' ');
    var ts := Split(t);
    forall k | 0 <= k < |ts|
      ensures !Contains(ts[k], ',')
    {
      SplitNoComma(t, 0, k);
    }
    ts
  }

  lemma {:induction false} SplitNoComma(t: string, i: nat, k: nat)
    requires i <= |t| && forall j :: 0 <= j < |t| ==> t[j] != ','
    requires k < |SplitFrom(t, i)|
    ensures !Contains(SplitFrom(t, i)[k], ',')
    decreases |t| - i
  {
    var a := SpaceEnd(t, i);
    var b := TokenEnd(t, a);
    assert SplitFrom(t, i) == [t[a..b]] + SplitFrom(t, b);
    if k > 0 {
      SplitNoComma(t, b, k - 1);
    }
  }

  /** The values of the tokens int() accepts, in order; the others are
      skipped. */
  function TokenValues(ts: seq<string>): (vs: seq<int>)
    ensures |vs| <= |ts|
    ensures (forall k :: 0 <= k < |ts| ==> PyInt(ts[k]).None?) ==> vs == []
  {
    if ts == [] then []
    else
      var init := TokenValues(ts[..|ts| - 1]);
      match PyInt(ts[|ts| - 1])
      case Some(v) => init + [v]
      case None => init
  }

  /** Reading one more token appends its value when int() accepts it. */
  lemma TokenValuesStep(ts: seq<string>, i: nat)
    requires i < |ts|
    ensures TokenValues(ts[..i + 1]) == TokenValues(ts[..i]) + (if PyInt(ts[i]).Some? then [PyInt(ts[i]).value] else [])
  {
    assert ts[..i + 1][..i] == ts[..i];
  }

  /** setStr(s): the parsed points, largest first, for places 1, 2, ... */
  function ParseTable(s: string): (m: map<int, int>)
  {
    DescIsPreorder();
    TableOf(Sort(TokenValues(Tokens(s)), Desc))
  }

  /** What setStr builds is a table, with the points of places 1..n in
      non-increasing order, holding exactly the numbers of the text. */
  lemma ParseTableShape(s: string)
    ensures var m := ParseTable(s);
      && IsTable(m)
      && SortedBy(InPlaceOrder(m, |m|), Desc)
      && multiset(InPlaceOrder(m, |m|)) == multiset(TokenValues(Tokens(s)))
  {
    DescIsPreorder();
    InPlaceOrderOfTable(Sort(TokenValues(Tokens(s)), Desc));
  }

  /** [str(v) for v in vs] */
  function Strs(vs: seq<int>): (ss: seq<string>)
    ensures |ss| == |vs|
    ensures forall k :: 0 <= k < |ss| ==> ss[k] == IntToStr(vs[k])
  {
    if vs == [] then [] else Strs(vs[..|vs| - 1]) + [IntToStr(vs[|vs| - 1])]
  }

  /** getStr() on a table: its points, largest first, joined by ", ". */
  function PointsText(m: map<int, int>): string
    requires IsTable(m)
  {
    DescIsPreorder();
    Join(Strs(Sort(InPlaceOrder(m, |m|), Desc)), ", ")
  }

  /** Replacing ',' by ' ' in a list joined by ", " joins it by two spaces. */
  lemma {:induction false} ReplaceCommaJoin(parts: seq<string>)
    requires forall k :: 0 <= k < |parts| ==> !Contains(parts[k], ',')
    ensures ReplaceAll(Join(parts, ", "), ',', ' ') == Join(parts, "  ")
  {
    if |parts| > 1 {
      ReplaceCommaJoin(parts[1..]);
      var rest := Join(parts[1..], ", ");
      ReplaceAllAppend(parts[0] + ", ", rest);
      ReplaceAllAppend(parts[0], ", ");
      NoCommaReplace(parts[0]);
      assert ReplaceAll(", ", ',', ' ') == "  ";
    } else if |parts| == 1 {
      NoCommaReplace(parts[0]);
    }
  }

  lemma NoCommaReplace(s: string)
    requires !Contains(s, ',')
    ensures ReplaceAll(s, ',', ' ') == s
  {
    var r := ReplaceAll(s, ',', ' ');
    assert forall k :: 0 <= k < |s| ==> r[k] == s[k];
  }

  lemma {:induction false} ReplaceAllAppend(a: string, b: string)
    ensures ReplaceAll(a + b, ',', ' ') == ReplaceAll(a, ',', ' ') + ReplaceAll(b, ',', ' ')
    decreases |a|
  {
    if a == [] {
      assert a + b == b;
    } else {
      assert (a + b)[1..] == a[1..] + b;
      ReplaceAllAppend(a[1..], b);
    }
  }

  /** int() reads back every str() of a list. */
  lemma {:induction false} ValuesOfStrs(vs: seq<int>)
    ensures TokenValues(Strs(vs)) == vs
    decreases |vs|
  {
    if vs != [] {
      var init, x := vs[..|vs| - 1], vs[|vs| - 1];
      assert vs == init + [x];
      var ss := Strs(vs);
      assert ss[..|ss| - 1] == Strs(init) && ss[|ss| - 1] == IntToStr(x);
      ValuesOfStrs(init);
      IntToStrRoundTrip(x);
    }
  }

  lemma StrsNoComma(vs: seq<int>)
    ensures forall k :: 0 <= k < |Strs(vs)| ==> Strs(vs)[k] != [] && NoSpace(Strs(vs)[k]) && !Contains(Strs(vs)[k], ',')
  {
  }

  /** The tokens of a list of numbers joined by ", " are their str()s. */
  lemma TokensOfText(vs: seq<int>)
    ensures Tokens(Join(Strs(vs), ", ")) == Strs(vs)
  {
    var ss := Strs(vs);
    StrsNoComma(vs);
    ReplaceCommaJoin(ss);
    SplitJoin(ss, "  ");
  }

  /** setStr(getStr()) gives back a table whose points are already in
      non-increasing order: what setStr and the presets produce. */
  lemma PointsTextRoundTrip(m: map<int, int>)
    requires IsTable(m) && SortedBy(InPlaceOrder(m, |m|), Desc)
    ensures ParseTable(PointsText(m)) == m
  {
    DescIsPreorder();
    var vs := InPlaceOrder(m, |m|);
    DescKeys(vs);
    SortSorted(vs, Desc);
    var text := PointsText(m);
    assert text == Join(Strs(vs), ", ");
    TokensOfText(vs);
    ValuesOfStrs(vs);
    var parsed := Sort(TokenValues(Tokens(text)), Desc);
    assert parsed == vs;
    assert ParseTable(text) == TableOf(parsed);
    TableOfInPlaceOrder(m);
  }

  // ---------------------------------------------------------------- points structures

  /** The rank a rider who did not finish is given. */
  const DNF_RANK := 999999

  /** The preset points of places 1, 2, ... */
  const UCI_WORLD_TOUR: seq<int> := [100, 80, 70, 60, 50, 40, 30, 20, 10, 4]
  const OCA_O_CUP: seq<int> := [25, 20, 16, 13, 11, 10, 9, 8, 7, 6, 5, 4, 3, 2, 1]

  /** A table whose points never rise from one place to the next. */
  predicate IsRanking(m: map<int, int>)
  {
    IsTable(m) && SortedBy(InPlaceOrder(m, |m|), Desc)
  }

  /** A table built from points that never rise is a ranking. */
  lemma RankingOf(vs: seq<int>)
    requires SortedBy(vs, Desc)
    ensures IsRanking(TableOf(vs))
  {
    InPlaceOrderOfTable(vs);
  }

  /** Points that never rise from one place to the next are sorted
      largest first. */
  lemma AdjacentSorted(vs: seq<int>)
    requires forall i :: 0 <= i < |vs| - 1 ==> vs[i] >= vs[i + 1]
    ensures SortedBy(vs, Desc)
  {
    forall i, j | 0 <= i < j < |vs|
      ensures Desc(vs[i], vs[j])
    {
      AdjacentChain(vs, i, j);
    }
  }

  lemma {:induction false} AdjacentChain(vs: seq<int>, i: nat, j: nat)
    requires forall i :: 0 <= i < |vs| - 1 ==> vs[i] >= vs[i + 1]
    requires i <= j < |vs|
    ensures vs[i] >= vs[j]
    decreases j - i
  {
    if i < j {
      AdjacentChain(vs, i + 1, j);
    }
  }

  /** The presets are rankings, so getStr and setStr reproduce them
      (PointsTextRoundTrip). */
  lemma UCIWorldTourRanking()
    ensures IsRanking(TableOf(UCI_WORLD_TOUR))
  {
    AdjacentSorted(UCI_WORLD_TOUR);
    RankingOf(UCI_WORLD_TOUR);
  }

  lemma OCAOCupRanking()
    ensures IsRanking(TableOf(OCA_O_CUP))
  {
    AdjacentSorted(OCA_O_CUP);
    RankingOf(OCA_O_CUP);
  }

  /** A points structure: the points of each place, the points for taking
      part without a placed finish and the points for not finishing. */
  class PointStructure {
    const name: string
    var pointsForPlace: map<int, int>
    const participationPoints: int
    const dnfPoints: int

    predicate Valid()
      reads this
    {
      IsRanking(pointsForPlace)
    }

    /** PointStructure(name, pointsStr, participationPoints, dnfPoints): the
        table read from pointsStr, or the OCA O-Cup preset without one. */
    constructor(name: string, pointsStr: Option<string>, participationPoints: int, dnfPoints: int)
      ensures this.name == name && this.participationPoints == participationPoints && this.dnfPoints == dnfPoints
      ensures pointsStr.Some? ==> pointsForPlace == ParseTable(pointsStr.value)
      ensures pointsStr.None? ==> pointsForPlace == TableOf(OCA_O_CUP)
      ensures Valid()
    {
      this.name := name;
      this.participationPoints := participationPoints;
      this.dnfPoints := dnfPoints;
      new;
      if pointsStr.Some? {
        SetStr(pointsStr.value);
      } else {
        SetOCAOCup();
      }
    }

    /** ps[rank]: the points for not finishing, for a place in the table, or
        for taking part. */
    function Get(rank: int): (points: int)
      reads this
      ensures rank == DNF_RANK ==> points == dnfPoints
      ensures rank != DNF_RANK && Valid() && 1 <= rank <= Len() ==> points == InPlaceOrder(pointsForPlace, Len())[rank - 1]
      ensures rank != DNF_RANK && Valid() && !(1 <= rank <= Len()) ==> points == participationPoints
    {
      if rank == DNF_RANK then dnfPoints
      else if rank in pointsForPlace then pointsForPlace[rank]
      else participationPoints
    }

    /** len(ps): the number of places that score. */
    function Len(): (n: nat)
      reads this
      ensures Valid() ==> forall place :: place in pointsForPlace <==> 1 <= place <= n
    {
      |pointsForPlace|
    }

    /** getStr(): the points, largest first, joined by ", "; setStr reads
        the table back from it. */
    function GetStr(): (s: string)
      reads this
      requires Valid()
      ensures ParseTable(s) == pointsForPlace
    {
      PointsTextRoundTrip(pointsForPlace);
      PointsText(pointsForPlace)
    }

    /** setStr(s): the numbers of s, largest first, for places 1, 2, ... */
    method SetStr(s: string)
      modifies this
      ensures pointsForPlace == ParseTable(s) && Valid()
    {
      var tokens := Split(ReplaceAll(s, ',', ' '));
      assert tokens == Tokens(s);
      var values: seq<int> := [];
      for i := 0 to |tokens|
        invariant values == TokenValues(tokens[..i])
      {
        TokenValuesStep(tokens, i);
        var parsed := PyInt(tokens[i]);
        if parsed.Some? {
          values := values + [parsed.value];
        }
      }
      assert tokens[..|tokens|] == tokens;
      DescIsPreorder();
      pointsForPlace := TableOf(Sort(values, Desc));
      ParseTableShape(s);
    }

    method SetUCIWorldTour()
      modifies this
      ensures pointsForPlace == TableOf(UCI_WORLD_TOUR) && Valid()
    {
      pointsForPlace := TableOf(UCI_WORLD_TOUR);
      UCIWorldTourRanking();
    }

    method SetOCAOCup()
      modifies this
      ensures pointsForPlace == TableOf(OCA_O_CUP) && Valid()
    {
      pointsForPlace := TableOf(OCA_O_CUP);
      OCAOCupRanking();
    }
  }

  /** A better place never earns fewer points than a worse one. */
  lemma BetterPlacesEarnMore(ps: PointStructure, better: int, worse: int)
    requires ps.Valid() && 1 <= better <= worse <= ps.Len() && worse < DNF_RANK
    ensures ps.Get(better) >= ps.Get(worse)
  {
    var vs := InPlaceOrder(ps.pointsForPlace, ps.Len());
    assert better == worse || Desc(vs[better - 1], vs[worse - 1]);
  }

  // ---------------------------------------------------------------- category order

  /** lt orders s strictly and totally. */
  ghost predicate StrictTotalOn<T>(s: set<T>, lt: (T, T) -> bool)
  {
    && (forall a, b :: a in s && b in s && a != b ==> lt(a, b) || lt(b, a))
    && (forall a, b :: a in s && b in s && lt(a, b) ==> !lt(b, a))
    && (forall a, b, c :: a in s && b in s && c in s && lt(a, b) && lt(b, c) ==> lt(a, c))
  }

  predicate IsLeast<T>(m: T, s: set<T>, lt: (T, T) -> bool)
  {
    m in s && forall y :: y in s && y != m ==> lt(m, y)
  }

  lemma {:induction false} LeastExists<T(!new)>(s: set<T>, lt: (T, T) -> bool)
    requires s != {} && StrictTotalOn(s, lt)
    ensures exists m :: IsLeast(m, s, lt)
    decreases |s|
  {
    var x :| x in s;
    if s != {x} {
      var rest := s - {x};
      LeastExists(rest, lt);
      var m :| IsLeast(m, rest, lt);
      if lt(x, m) {
        assert IsLeast(x, s, lt);
      } else {
        assert IsLeast(m, s, lt);
      }
    } else {
      assert IsLeast(x, s, lt);
    }
  }

  /** sorted(s) for a set whose order lt is strict and total. */
  function SortSet<T(==,!new)>(s: set<T>, lt: (T, T) -> bool): (r: seq<T>)
    requires StrictTotalOn(s, lt)
    ensures Distinct(r) && |r| == |s| && (forall x :: x in r <==> x in s)
    ensures forall i, j :: 0 <= i < j < |r| ==> lt(r[i], r[j])
    decreases |s|
  {
    if |s| == 0 then []
    else
      LeastExists(s, lt);
      var m :| IsLeast(m, s, lt);
      var rest := SortSet(s - {m}, lt);
      [m] + rest
  }

  /** The only strictly sorted list of the members of s is sorted(s). */
  lemma SortSetUnique<T(!new)>(s: set<T>, lt: (T, T) -> bool, r: seq<T>)
    requires StrictTotalOn(s, lt)
    requires |r| == |s| && forall x :: x in r <==> x in s
    requires forall i, j :: 0 <= i < j < |r| ==> lt(r[i], r[j])
    ensures r == SortSet(s, lt)
  {
    SameSorted(r, SortSet(s, lt), lt);
  }

  /** Two lists strictly sorted by the same asymmetric order and holding the
      same members are equal. */
  lemma {:induction false} SameSorted<T>(r: seq<T>, t: seq<T>, lt: (T, T) -> bool)
    requires |r| == |t| && forall x :: x in r <==> x in t
    requires forall i, j :: 0 <= i < j < |r| ==> lt(r[i], r[j])
    requires forall i, j :: 0 <= i < j < |t| ==> lt(t[i], t[j])
    requires forall a, b :: a in r && b in r && lt(a, b) ==> !lt(b, a)
    ensures r == t
    decreases |r|
  {
    if r != [] {
      assert r[0] in r && t[0] in t;
      assert forall k :: 0 < k < |r| ==> lt(r[0], r[k]);
      assert forall k :: 0 < k < |t| ==> lt(t[0], t[k]);
      assert t[0] == r[0];
      forall x
        ensures x in r[1..] <==> x in t[1..]
      {
        if x in r[1..] {
          var k :| 1 <= k < |r| && r[k] == x;
          assert lt(r[0], r[k]) && x in t;
          var k' :| 0 <= k' < |t| && t[k'] == x;
          assert t[1..][k' - 1] == x;
        }
        if x in t[1..] {
          var k :| 1 <= k < |t| && t[k] == x;
          assert lt(t[0], t[k]) && x in r;
          var k' :| 0 <= k' < |r| && r[k'] == x;
          assert r[1..][k' - 1] == x;
        }
      }
      SameSorted(r[1..], t[1..], lt);
      assert r == [r[0]] + r[1..] && t == [t[0]] + t[1..];
    }
  }

  /** No two categories share a position. */
  predicate Injective(cs: map<string, int>)
  {
    forall a, b :: a in cs && b in cs && cs[a] == cs[b] ==> a == b
  }

  /** The order of the categories by their position. */
  function ByPosition(cs: map<string, int>): (string, string) -> bool
  {
    (a: string, b: string) => a in cs && b in cs && cs[a] < cs[b]
  }

  lemma ByPositionOrders(cs: map<string, int>, s: set<string>)
    requires Injective(cs) && s <= cs.Keys
    ensures StrictTotalOn(s, ByPosition(cs))
  {
  }

  lemma StrLtOrders(s: set<string>)
    ensures StrictTotalOn(s, StrLt)
  {
    forall a, b | a in s && b in s && a != b
      ensures StrLt(a, b) || StrLt(b, a)
    {
      StrLtTotal(a, b);
    }
    forall a, b | a in s && b in s && StrLt(a, b)
      ensures !StrLt(b, a)
    {
      StrLtAsymmetric(a, b);
    }
    forall a, b, c | a in s && b in s && c in s && StrLt(a, b) && StrLt(b, c)
      ensures StrLt(a, c)
    {
      StrLtTransitive(a, b, c);
    }
  }

  /** {c: i for i, c in enumerate(cs)}: each category at the index of its
      last occurrence. */
  function IndexMap(cs: seq<string>): (m: map<string, int>)
    ensures forall c :: c in m <==> c in cs
    ensures forall c :: c in m ==> 0 <= m[c] < |cs| && cs[m[c]] == c && forall j :: m[c] < j < |cs| ==> cs[j] != c
    ensures Injective(m)
  {
    if cs == [] then map[]
    else
      var m := IndexMap(cs[..|cs| - 1]);
      m[cs[|cs| - 1] := |cs| - 1]
  }

  /** In a list without repeats every category sits at its own index. */
  lemma IndexMapDistinct(cs: seq<string>)
    requires Distinct(cs)
    ensures forall i :: 0 <= i < |cs| ==> IndexMap(cs)[cs[i]] == i
  {
  }

  lemma {:induction false} IndexMapSize(cs: seq<string>)
    requires Distinct(cs)
    ensures |IndexMap(cs).Keys| == |cs|
  {
    if cs != [] {
      var init := cs[..|cs| - 1];
      IndexMapSize(init);
      assert cs[|cs| - 1] !in init;
      assert IndexMap(cs).Keys == IndexMap(init).Keys + {cs[|cs| - 1]};
    }
  }

  /** sorted(cs, key=lambda c: cs[c]): the categories in position order. */
  function CategoriesInOrder(cs: map<string, int>): (r: seq<string>)
    requires Injective(cs)
    ensures Distinct(r) && |r| == |cs| && (forall c :: c in r <==> c in cs)
    ensures InPositionOrder(r, cs)
  {
    ByPositionOrders(cs, cs.Keys);
    SortSet(cs.Keys, ByPosition(cs))
  }

  /** Setting a list of distinct categories and reading the order back
      gives the list. */
  lemma CategoriesRoundTrip(cs: seq<string>)
    requires Distinct(cs)
    ensures CategoriesInOrder(IndexMap(cs)) == cs
  {
    var m := IndexMap(cs);
    IndexMapDistinct(cs);
    IndexMapSize(cs);
    ByPositionOrders(m, m.Keys);
    SortSetUnique(m.Keys, ByPosition(m), cs);
  }

  /** [c for c in cs if c in keep] */
  function KeepOnly(cs: seq<string>, keep: set<string>): (r: seq<string>)
    ensures forall c :: c in r <==> c in cs && c in keep
  {
    if cs == [] then []
    else (if cs[0] in keep then [cs[0]] else []) + KeepOnly(cs[1..], keep)
  }

  /** The order harmonizeCategorySequence gives the raced categories:
      those of the previous order by their old position, before the new
      ones, which go by name. */
  predicate Before(base: map<string, int>, a: string, b: string)
  {
    || (a in base && b in base && base[a] < base[b])
    || (a in base && b !in base)
    || (a !in base && b !in base && StrLt(a, b))
  }

  lemma BeforeAsymmetric(base: map<string, int>, a: string, b: string)
    ensures Before(base, a, b) ==> !Before(base, b, a)
    ensures !Before(base, a, a)
  {
    StrLtAsymmetric(a, b);
    StrLtIrreflexive(a);
  }

  /** sorted(s) for a set of strings: each once, in increasing order. */
  function SortedStrings(s: set<string>): (r: seq<string>)
    ensures Distinct(r) && |r| == |s| && (forall x :: x in r <==> x in s)
    ensures forall i, j :: 0 <= i < j < |r| ==> StrLt(r[i], r[j])
  {
    StrLtOrders(s);
    SortSet(s, StrLt)
  }

  /** The raced categories in harmonized order. */
  function CategoryList(base: map<string, int>, raced: set<string>): seq<string>
    requires Injective(base)
  {
    KeepOnly(CategoriesInOrder(base), raced) + SortedStrings(raced - base.Keys)
  }

  /** The harmonized list holds each raced category once, in Before order. */
  lemma CategoryListShape(base: map<string, int>, raced: set<string>)
    requires Injective(base)
    ensures var r := CategoryList(base, raced);
      && (forall c :: c in r <==> c in raced)
      && InBeforeOrder(r, base)
  {
    var kept := KeepOnly(CategoriesInOrder(base), raced);
    var added := SortedStrings(raced - base.Keys);
    KeepOnlySorted(CategoriesInOrder(base), raced, base);
    assert forall c :: c in kept ==> c in base;
    assert forall c :: c in added ==> c !in base;
    ConcatBefore(kept, added, base);
  }

  predicate InBeforeOrder(r: seq<string>, base: map<string, int>)
  {
    forall i, j :: 0 <= i < j < |r| ==> Before(base, r[i], r[j])
  }

  lemma ConcatBefore(kept: seq<string>, added: seq<string>, base: map<string, int>)
    requires InPositionOrder(kept, base)
    requires forall c :: c in added ==> c !in base
    requires forall i, j :: 0 <= i < j < |added| ==> StrLt(added[i], added[j])
    ensures InBeforeOrder(kept + added, base)
  {
    var r := kept + added;
    forall i, j | 0 <= i < j < |r|
      ensures Before(base, r[i], r[j])
    {
      if j < |kept| {
        assert r[i] == kept[i] && r[j] == kept[j];
      } else if i >= |kept| {
        assert r[i] == added[i - |kept|] && r[j] == added[j - |kept|];
      } else {
        assert r[i] == kept[i] && r[j] == added[j - |kept|];
      }
    }
  }

  /** A list in a strict order holds no repeats. */
  lemma BeforeDistinct(base: map<string, int>, r: seq<string>)
    requires InBeforeOrder(r, base)
    ensures Distinct(r)
  {
    forall i, j | 0 <= i < j < |r|
      ensures r[i] != r[j]
    {
      BeforeAsymmetric(base, r[i], r[i]);
    }
  }

  /** harmonizeCategorySequence: the categories of the base order that are
      still raced, in that order, then the new ones in sorted order,
      numbered from 0; nothing when no category is raced. */
  function Harmonized(base: map<string, int>, raced: set<string>): map<string, int>
    requires Injective(base)
  {
    if |raced| == 0 then map[]
    else IndexMap(CategoryList(base, raced))
  }

  /** What harmonizeCategorySequence promises of the new order m: the raced
      categories and nothing else, numbered 0..n-1 without repeats, those of
      the base order first and in that order, then the new ones by name. */
  ghost predicate Harmonizes(m: map<string, int>, base: map<string, int>, raced: set<string>)
  {
    && (forall c :: c in m <==> c in raced)
    && (forall c :: c in m ==> 0 <= m[c] < |m|)
    && Injective(m)
    && (forall a, b :: a in m && b in m && Before(base, a, b) ==> m[a] < m[b])
  }

  /** Each member of cs has a position in base, and the positions rise. */
  predicate InPositionOrder(cs: seq<string>, base: map<string, int>)
  {
    && (forall i :: 0 <= i < |cs| ==> cs[i] in base)
    && forall i, j :: 0 <= i < j < |cs| ==> base[cs[i]] < base[cs[j]]
  }

  lemma PrependInOrder(c: string, rest: seq<string>, base: map<string, int>)
    requires c in base && InPositionOrder(rest, base)
    requires forall x :: x in rest ==> base[c] < base[x]
    ensures InPositionOrder([c] + rest, base)
  {
    var r := [c] + rest;
    forall i, j | 0 <= i < j < |r|
      ensures base[r[i]] < base[r[j]]
    {
      assert r[j] == rest[j - 1];
      if i > 0 {
        assert r[i] == rest[i - 1];
      }
    }
  }

  /** Keeping only some members of a list in position order leaves it in
      position order. */
  lemma {:induction false} KeepOnlySorted(cs: seq<string>, keep: set<string>, base: map<string, int>)
    requires InPositionOrder(cs, base)
    ensures InPositionOrder(KeepOnly(cs, keep), base)
    decreases |cs|
  {
    if cs != [] {
      var rest := KeepOnly(cs[1..], keep);
      KeepOnlySorted(cs[1..], keep, base);
      if cs[0] in keep {
        assert KeepOnly(cs, keep) == [cs[0]] + rest;
        forall x | x in rest
          ensures base[cs[0]] < base[x]
        {
          assert x in cs[1..];
          var k :| 1 <= k < |cs| && cs[k] == x;
        }
        PrependInOrder(cs[0], rest, base);
      } else {
        assert KeepOnly(cs, keep) == rest;
      }
    }
  }

  /** The numbering harmonizeCategorySequence installs when some category
      is raced: list the categories, then number them from 0. */
  method NumberRaced(base: map<string, int>, raced: set<string>) returns (m: map<string, int>)
    requires Injective(base) && |raced| > 0
    ensures Harmonizes(m, base, raced)
  {
    var categoriesCur := CategoryList(base, raced);
    m := IndexMap(categoriesCur);
    HarmonizedOrder(base, raced);
  }

  /** The harmonized order keeps the promise. */
  lemma HarmonizedOrder(base: map<string, int>, raced: set<string>)
    requires Injective(base)
    ensures Harmonizes(Harmonized(base, raced), base, raced)
  {
    if |raced| > 0 {
      var r := CategoryList(base, raced);
      CategoryListShape(base, raced);
      BeforeDistinct(base, r);
      IndexMapDistinct(r);
      IndexMapSize(r);
      IndexMapBefore(r, base);
    }
  }

  /** The promise leaves no choice: the harmonized order is the only map
      that keeps it. */
  lemma HarmonizedUnique(m: map<string, int>, base: map<string, int>, raced: set<string>)
    requires Injective(base) && Harmonizes(m, base, raced)
    ensures m == Harmonized(base, raced)
  {
    if |raced| == 0 {
      assert forall c :: c !in m;
      assert m == map[];
    } else {
      CategoryListShape(base, raced);
      CategoryListCount(base, raced);
      UniqueFromLists(m, base, raced, CategoriesInOrder(m), CategoryList(base, raced));
    }
  }

  /** The harmonized list holds as many categories as are raced. */
  lemma CategoryListCount(base: map<string, int>, raced: set<string>)
    requires Injective(base)
    ensures Distinct(CategoryList(base, raced)) && |CategoryList(base, raced)| == |raced|
  {
    var t := CategoryList(base, raced);
    CategoryListShape(base, raced);
    BeforeDistinct(base, t);
    IndexMapSize(t);
    SameMembers(IndexMap(t).Keys, raced);
  }

  lemma SameMembers(a: set<string>, b: set<string>)
    requires forall c :: c in a <==> c in b
    ensures a == b
  {
  }

  lemma UniqueFromLists(m: map<string, int>, base: map<string, int>, raced: set<string>, r: seq<string>, t: seq<string>)
    requires Injective(base) && Harmonizes(m, base, raced)
    requires Distinct(r) && |r| == |m| && (forall c :: c in r <==> c in m) && InPositionOrder(r, m)
    requires Distinct(t) && |t| == |raced| && (forall c :: c in t <==> c in raced) && InBeforeOrder(t, base)
    ensures m == IndexMap(t)
  {
    assert m.Keys == raced;
    PositionsFollowBefore(r, m, base);
    SameBeforeOrder(r, t, base);
    NumberedByList(r, m);
  }

  /** A list of the categories of an order that keeps the promise, by their
      numbers, is in Before order. */
  lemma PositionsFollowBefore(r: seq<string>, m: map<string, int>, base: map<string, int>)
    requires Injective(base) && InPositionOrder(r, m)
    requires forall a, b :: a in m && b in m && Before(base, a, b) ==> m[a] < m[b]
    ensures InBeforeOrder(r, base)
  {
    forall i, j | 0 <= i < j < |r|
      ensures Before(base, r[i], r[j])
    {
      BeforeTotal(base, r[i], r[j]);
      BeforeAsymmetric(base, r[i], r[j]);
    }
  }

  /** Two lists of the same categories, each once, in Before order, are
      equal. */
  lemma SameBeforeOrder(r: seq<string>, t: seq<string>, base: map<string, int>)
    requires |r| == |t| && (forall c :: c in r <==> c in t)
    requires InBeforeOrder(r, base) && InBeforeOrder(t, base)
    ensures r == t
  {
    forall a, b | a in r && b in r && Before(base, a, b)
      ensures !Before(base, b, a)
    {
      BeforeAsymmetric(base, a, b);
    }
    SameSorted(r, t, (a, b) => Before(base, a, b));
  }

  /** An order numbered 0..n-1 without repeats numbers each category by its
      place in the list of its categories in position order. */
  lemma NumberedByList(r: seq<string>, m: map<string, int>)
    requires Distinct(r) && (forall c :: c in r <==> c in m)
    requires InPositionOrder(r, m)
    requires forall c :: c in m ==> 0 <= m[c] < |r|
    ensures m == IndexMap(r)
  {
    forall i | 0 <= i < |r|
      ensures m[r[i]] == i
    {
      PositionAtLeastIndex(r, m, i);
      PositionAtMostIndex(r, m, i);
    }
    NumberedAtIndex(r, m);
  }

  lemma NumberedAtIndex(r: seq<string>, m: map<string, int>)
    requires Distinct(r) && (forall c :: c in r <==> c in m)
    requires forall i :: 0 <= i < |r| ==> m[r[i]] == i
    ensures m == IndexMap(r)
  {
    var n := IndexMap(r);
    forall c | c in m
      ensures c in n && n[c] == m[c]
    {
      var k :| 0 <= k < |r| && r[k] == c;
      IndexMapAt(r, k);
    }
  }

  lemma IndexMapAt(r: seq<string>, k: int)
    requires Distinct(r) && 0 <= k < |r|
    ensures r[k] in IndexMap(r) && IndexMap(r)[r[k]] == k
  {
    IndexMapDistinct(r);
  }

  /** Rising positions that are not negative: the i-th is at least i. */
  lemma {:induction false} PositionAtLeastIndex(r: seq<string>, m: map<string, int>, i: nat)
    requires i < |r| && InPositionOrder(r, m)
    requires forall j :: 0 <= j < |r| ==> 0 <= m[r[j]]
    ensures i <= m[r[i]]
  {
    if i > 0 {
      PositionAtLeastIndex(r, m, i - 1);
    }
  }

  /** Rising positions below |r|: the i-th leaves room for the rest, so it
      is at most i. */
  lemma {:induction false} PositionAtMostIndex(r: seq<string>, m: map<string, int>, i: nat)
    requires i < |r| && InPositionOrder(r, m)
    requires forall j :: 0 <= j < |r| ==> m[r[j]] < |r|
    ensures m[r[i]] <= i
    decreases |r| - i
  {
    if i + 1 < |r| {
      PositionAtMostIndex(r, m, i + 1);
    }
  }

  /** Any two distinct categories are ordered one way or the other. */
  lemma BeforeTotal(base: map<string, int>, a: string, b: string)
    requires Injective(base) && a != b
    ensures Before(base, a, b) || Before(base, b, a)
  {
    StrLtTotal(a, b);
  }


  /** Numbering a list in Before order keeps that order in the numbers. */
  lemma IndexMapBefore(r: seq<string>, base: map<string, int>)
    requires InBeforeOrder(r, base) && Distinct(r)
    ensures var m := IndexMap(r);
      forall a, b :: a in m && b in m && Before(base, a, b) ==> m[a] < m[b]
  {
    var m := IndexMap(r);
    IndexMapDistinct(r);
    forall a, b | a in m && b in m && Before(base, a, b)
      ensures m[a] < m[b]
    {
      var i, j := m[a], m[b];
      assert r[i] == a && r[j] == b;
      BeforeAsymmetric(base, a, b);
      assert !Before(base, r[j], r[i]);
    }
  }
}
