/** The tag-read grouping of CrossMgrImpinj: the reads of each RFID tag are
    gathered per antenna until the tag goes quiet, when one best time is
    reported for it; a tag read without a pause for too long is a stray,
    reported once and from then on kept only as its newest reads. Times are
    seconds relative to a reference instant. */
module TagGroupModel {
  import opened PyText
  import opened Sorting

  type Tag = string

  /** Seconds of quiet after which a tag has left the read range. */
  const T_QUIET: real := 0.5
  /** Seconds of continuous reads after which a tag is a stray. */
  const T_STRAY: real := 8.0
  /** sys.float_info.max, the largest finite double. */
  const FLOAT_MAX: real := 179769313486231570814527423731704356798070567525844996598917476803157260780028538760589558632766878171540458953514382464234321326889464182768467546703537516986049910576551282076245490090389328944075868508455133942304583236903222948165808559332123348274797826204144723168738177180919299881250404026184124858368.0

  /** Read times are differences of datetimes: finite doubles. */
  predicate Finite(tr: real)
  {
    -FLOAT_MAX <= tr <= FLOAT_MAX
  }

  /** One read: its time and its signal strength in dB. */
  type Sample = (real, real)

  /** QuadRegExtreme: the time of the peak of a quadratic fitted to the
      reads, or None where it raises. */
  type Regression = seq<Sample> -> Option<real>

  function Max(a: real, b: real): real
  {
    if a >= b then a else b
  }

  /** The greatest dB among the reads. */
  function MaxDb(readList: seq<Sample>): (m: real)
    requires |readList| > 0
    ensures forall k :: 0 <= k < |readList| ==> readList[k].1 <= m
    ensures exists k :: 0 <= k < |readList| && readList[k].1 == m
  {
    if |readList| == 1 then readList[0].1
    else Max(MaxDb(readList[..|readList| - 1]), readList[|readList| - 1].1)
  }

  lemma MaxDbAppend(readList: seq<Sample>, s: Sample)
    requires |readList| > 0
    ensures MaxDb(readList + [s]) == Max(MaxDb(readList), s.1)
  {
    assert (readList + [s])[..|readList|] == readList;
  }

  // ---------------------------------------------------------------- one antenna

  /** The reads of a tag at one antenna: the fields of AntennaReads. */
  datatype Antenna = Antenna(firstRead: real, readList: seq<Sample>, dbMax: real)
  {
    /** An antenna always holds at least one read. */
    predicate Wf()
    {
      |readList| > 0
    }

    /** The time of the newest read (the lastRead property). */
    function LastRead(): (t: real)
      requires Wf()
      ensures t == readList[|readList| - 1].0
    {
      readList[|readList| - 1].0
    }

    /** The isStray property: read for longer than T_STRAY since its first read. */
    predicate IsStray()
      requires Wf()
      ensures IsStray() <==> readList[|readList| - 1].0 > firstRead + T_STRAY
    {
      LastRead() - firstRead > T_STRAY
    }

    /** AntennaReads.add: a stray keeps only the new read in place of its
        newest one; otherwise the read is appended and dbMax raised to it. */
    function Added(tr: real, db: real): (a: Antenna)
      requires Wf()
      ensures a.Wf() && a.firstRead == firstRead && a.LastRead() == tr
    {
      if IsStray() then
        var kept := if |readList| > 1 then readList[|readList| - 1..] else readList;
        this.(readList := kept[|kept| - 1 := (tr, db)])
      else
        this.(readList := readList + [(tr, db)], dbMax := if db > dbMax then db else dbMax)
    }

    /** AntennaReads.getBestEstimate: the regression estimate with the number
        of reads it used, or (firstRead, 1) for a stray, when the regression
        raises, or when its estimate lies outside the reads. */
    function Estimate(quad: Regression): (est: (real, nat))
      requires Wf()
      ensures est == (firstRead, 1) || (readList[0].0 <= est.0 <= LastRead() && est.1 == |readList|)
      ensures IsStray() ==> est == (firstRead, 1)
      ensures !IsStray() && quad(readList).Some? && readList[0].0 <= quad(readList).value <= LastRead() ==>
                est == (quad(readList).value, |readList|)
      ensures !IsStray() && (quad(readList).None? || !(readList[0].0 <= quad(readList).value <= LastRead())) ==>
                est == (firstRead, 1)
    {
      if IsStray() then (firstRead, 1)
      else
        var trEst: real, sampleSize: nat :=
          if quad(readList).Some? then quad(readList).value else firstRead,
          if quad(readList).Some? then |readList| else 1;
        if !(readList[0].0 <= trEst <= LastRead()) then (firstRead, 1)
        else (trEst, sampleSize)
    }

    /** A stray's reads after setStray: only the newest one is kept. */
    function Trimmed(): (a: Antenna)
      requires Wf()
      ensures a.Wf() && |a.readList| == 1 && a.LastRead() == LastRead()
      ensures a.firstRead == firstRead && a.dbMax == dbMax
    {
      this.(readList := readList[|readList| - 1..])
    }
  }

  /** AntennaReads(tr, db): the first read at an antenna. */
  function Opened(tr: real, db: real): (a: Antenna)
    ensures a.Wf() && !a.IsStray() && a.firstRead == tr == a.LastRead()
    ensures a.dbMax == MaxDb(a.readList)
  {
    Antenna(tr, [(tr, db)], db)
  }

  /** While an antenna is not a stray, add appends the read and dbMax stays
      the greatest dB of its reads. */
  lemma AddAppends(a: Antenna, tr: real, db: real)
    requires a.Wf() && !a.IsStray() && a.dbMax == MaxDb(a.readList)
    ensures a.Added(tr, db).readList == a.readList + [(tr, db)]
    ensures a.Added(tr, db).dbMax == MaxDb(a.Added(tr, db).readList)
  {
    MaxDbAppend(a.readList, (tr, db));
  }

  /** Once an antenna is a stray, add cuts its list to the new read alone and
      leaves firstRead and dbMax as they were. */
  lemma AddToStray(a: Antenna, tr: real, db: real)
    requires a.Wf() && a.IsStray()
    ensures a.Added(tr, db) == Antenna(a.firstRead, [(tr, db)], a.dbMax)
  {
    var kept := if |a.readList| > 1 then a.readList[|a.readList| - 1..] else a.readList;
    assert |kept| == 1;
  }

  // ---------------------------------------------------------------- one tag

  /** The list index antenna - 1 in Python: 0..3 directly, -4..-1 counted
      from the end, anything else raises IndexError (None). */
  function SlotOf(antenna: int): (s: Option<nat>)
    ensures s.Some? <==> -3 <= antenna <= 4
    ensures s.Some? ==> s.value < 4 && (s.value - (antenna - 1)) % 4 == 0
    ensures 1 <= antenna <= 4 ==> s == Some(antenna - 1)
  {
    var i := antenna - 1;
    if 0 <= i < 4 then Some(i)
    else if -4 <= i < 0 then Some(i + 4)
    else None
  }

  /** All reads of an antenna lie in [lo, hi]. */
  predicate InWindow(a: Antenna, lo: real, hi: real)
  {
    && lo <= a.firstRead <= hi
    && forall k :: 0 <= k < |a.readList| ==> lo <= a.readList[k].0 <= hi
  }

  /** The Python max(..., key=(len(reads), dbMax)) order between antennas. */
  predicate KeyLess(a: Antenna, b: Antenna)
  {
    |a.readList| < |b.readList| || (|a.readList| == |b.readList| && a.dbMax < b.dbMax)
  }

  /** The antenna max() picks among the first n slots: the first slot in use
      whose key no other slot in use exceeds. */
  function Strongest(slots: seq<Option<Antenna>>, n: nat): (best: Option<nat>)
    requires n <= |slots|
    ensures best.None? <==> forall i :: 0 <= i < n ==> slots[i].None?
    ensures best.Some? ==> best.value < n && slots[best.value].Some?
    ensures best.Some? ==> forall i :: 0 <= i < n && slots[i].Some? ==>
              !KeyLess(slots[best.value].value, slots[i].value)
    ensures best.Some? ==> forall i :: 0 <= i < best.value && slots[i].Some? ==>
              KeyLess(slots[i].value, slots[best.value].value)
  {
    if n == 0 then None
    else
      var b := Strongest(slots, n - 1);
      if slots[n - 1].None? then b
      else if b.None? || KeyLess(slots[b.value].value, slots[n - 1].value) then Some(n - 1)
      else b
  }

  /** The state of one tag: the fields of TagGroupEntry, each antenna slot
      empty (None) or holding that antenna's readList. */
  datatype Entry = Entry(slots: seq<Option<Antenna>>, firstReadMin: real, lastReadMax: real, isStray: bool)
  {
    /** Four slots, at least one in use, each in use holding reads. */
    predicate Wf()
    {
      && |slots| == 4
      && (exists i :: 0 <= i < 4 && slots[i].Some?)
      && forall i :: 0 <= i < 4 && slots[i].Some? ==> slots[i].value.Wf()
    }

    /** Every read held lies between firstReadMin and lastReadMax. */
    predicate Bounded()
    {
      forall i :: 0 <= i < |slots| && slots[i].Some? ==> InWindow(slots[i].value, firstReadMin, lastReadMax)
    }

    /** TagGroupEntry.add with a valid slot: the antenna's reads are opened or
        extended, and the read time widens [firstReadMin, lastReadMax]. */
    function Added(slot: nat, tr: real, db: real): (e: Entry)
      requires Wf() && slot < 4
      ensures e.Wf() && e.isStray == isStray
      ensures e.firstReadMin <= tr <= e.lastReadMax
      ensures e.firstReadMin <= firstReadMin && e.lastReadMax >= lastReadMax
      ensures e.firstReadMin == firstReadMin || e.firstReadMin == tr
      ensures e.lastReadMax == lastReadMax || e.lastReadMax == tr
    {
      var e := Entry(slots[slot := Put(slots[slot], tr, db)],
                     if tr < firstReadMin then tr else firstReadMin,
                     if tr > lastReadMax then tr else lastReadMax,
                     isStray);
      assert e.slots[slot].Some?;
      e
    }

    /** TagGroupEntry.getBestEstimate: a stray's first read, otherwise the
        estimate of the antenna with the most reads (ties to the higher dbMax,
        then to the lower slot). */
    function Estimate(quad: Regression): (est: (real, nat))
      requires Wf()
      ensures isStray ==> est == (firstReadMin, 1)
      ensures Bounded() ==> firstReadMin <= est.0 <= lastReadMax
    {
      if isStray then
        assert Bounded() ==> firstReadMin <= lastReadMax by {
          var i :| 0 <= i < 4 && slots[i].Some?;
          if Bounded() {
            assert InWindow(slots[i].value, firstReadMin, lastReadMax);
          }
        }
        (firstReadMin, 1)
      else
        var best := Strongest(slots, 4);
        var a := slots[best.value].value;
        assert Bounded() ==> InWindow(a, firstReadMin, lastReadMax);
        assert a.readList[0].0 == a.readList[0].0 && a.LastRead() == a.readList[|a.readList| - 1].0;
        a.Estimate(quad)
    }

    /** TagGroupEntry.setStray: every antenna keeps only its newest read. */
    function Strayed(): (e: Entry)
      requires Wf()
      ensures e.Wf() && e.isStray
      ensures e.firstReadMin == firstReadMin && e.lastReadMax == lastReadMax
    {
      var e := Entry([Trim(slots[0]), Trim(slots[1]), Trim(slots[2]), Trim(slots[3])], firstReadMin, lastReadMax, true);
      var i :| 0 <= i < 4 && slots[i].Some?;
      assert e.slots[i].Some?;
      e
    }
  }

  lemma TrimInWindow(a: Antenna, lo: real, hi: real)
    requires a.Wf() && InWindow(a, lo, hi)
    ensures InWindow(a.Trimmed(), lo, hi)
  {
    assert a.Trimmed().readList[0] == a.readList[|a.readList| - 1];
  }

  /** Entry.Added field by field: only the slot read at changes. */
  lemma AddedShape(e: Entry, slot: nat, tr: real, db: real)
    requires e.Wf() && slot < 4
    ensures e.Added(slot, tr, db).slots == e.slots[slot := Put(e.slots[slot], tr, db)]
    ensures e.Added(slot, tr, db).firstReadMin == if tr < e.firstReadMin then tr else e.firstReadMin
    ensures e.Added(slot, tr, db).lastReadMax == if tr > e.lastReadMax then tr else e.lastReadMax
  {
  }

  /** add keeps every read in [firstReadMin, lastReadMax], which it widens to
      the new read time. */
  lemma AddedBounded(e: Entry, slot: nat, tr: real, db: real)
    requires e.Wf() && e.Bounded() && slot < 4
    ensures e.Added(slot, tr, db).Bounded()
  {
    var e' := e.Added(slot, tr, db);
    AddedShape(e, slot, tr, db);
    var a := Put(e.slots[slot], tr, db).value;
    assert e'.slots[slot] == Some(a);
    if e.slots[slot].Some? {
      var old_ := e.slots[slot].value;
      assert InWindow(old_, e.firstReadMin, e.lastReadMax);
      forall k | 0 <= k < |a.readList|
        ensures e'.firstReadMin <= a.readList[k].0 <= e'.lastReadMax
      {
        if old_.IsStray() {
          AddToStray(old_, tr, db);
        } else if k < |old_.readList| {
          assert a.readList[k] == old_.readList[k];
        }
      }
    }
    assert InWindow(a, e'.firstReadMin, e'.lastReadMax);
    forall i | 0 <= i < 4 && e'.slots[i].Some?
      ensures InWindow(e'.slots[i].value, e'.firstReadMin, e'.lastReadMax)
    {
      if i != slot {
        assert InWindow(e.slots[i].value, e.firstReadMin, e.lastReadMax);
      }
    }
  }

  /** Entry.Strayed slot by slot. */
  lemma StrayedShape(e: Entry)
    requires e.Wf()
    ensures |e.Strayed().slots| == 4
    ensures forall i :: 0 <= i < 4 ==> e.Strayed().slots[i] == Trim(e.slots[i])
  {
  }

  /** After setStray each antenna in use holds exactly its newest read. */
  lemma StrayedKeepsNewest(e: Entry)
    requires e.Wf()
    ensures forall i :: 0 <= i < 4 ==> (e.Strayed().slots[i].Some? <==> e.slots[i].Some?)
    ensures forall i :: 0 <= i < 4 && e.slots[i].Some? ==>
              e.Strayed().slots[i].value.readList == [e.slots[i].value.readList[|e.slots[i].value.readList| - 1]]
  {
    StrayedShape(e);
  }

  /** setStray keeps every read in [firstReadMin, lastReadMax]. */
  lemma StrayedBounded(e: Entry)
    requires e.Wf() && e.Bounded()
    ensures e.Strayed().Bounded()
  {
    StrayedShape(e);
    var e' := e.Strayed();
    forall i | 0 <= i < 4 && e.slots[i].Some?
      ensures InWindow(e'.slots[i].value, e.firstReadMin, e.lastReadMax)
    {
      TrimInWindow(e.slots[i].value, e.firstReadMin, e.lastReadMax);
    }
  }

  /** One slot after add: the antenna's reads opened or extended. */
  function Put(s: Option<Antenna>, tr: real, db: real): (r: Option<Antenna>)
    requires s.Some? ==> s.value.Wf()
    ensures r.Some? && r.value.Wf()
  {
    Some(if s.None? then Opened(tr, db) else s.value.Added(tr, db))
  }

  /** One slot after setStray. */
  function Trim(s: Option<Antenna>): Option<Antenna>
    requires s.Some? ==> s.value.Wf()
  {
    if s.None? then None else Some(s.value.Trimmed())
  }

  /** TagGroupEntry(antenna, t, db): min and max start at the float extremes
      and the first add brings both to the read time. */
  function Started(slot: nat, tr: real, db: real): (e: Entry)
    requires slot < 4 && Finite(tr)
    ensures e.Wf() && e.Bounded() && !e.isStray
    ensures e.firstReadMin == tr == e.lastReadMax
    ensures e.slots[slot].Some? && forall i :: 0 <= i < 4 && i != slot ==> e.slots[i].None?
  {
    var e := Entry([None, None, None, None][slot := Some(Opened(tr, db))],
                   if tr < FLOAT_MAX then tr else FLOAT_MAX,
                   if tr > -FLOAT_MAX then tr else -FLOAT_MAX,
                   false);
    assert e.slots[slot].Some?;
    e
  }

  // ---------------------------------------------------------------- reports

  /** An item of the reads list: the tag, its estimated time and the number
      of reads behind the estimate. */
  datatype Read = Read(tag: Tag, t: real, sampleSize: nat)

  /** An item of the strays list: the tag and its first read time. */
  datatype StrayRead = StrayRead(tag: Tag, t: real)

  /** No read for T_QUIET seconds: the tag has left the read range. */
  predicate Quiet(e: Entry, trNow: real)
  {
    trNow - e.lastReadMax >= T_QUIET
  }

  /** Reads spanning T_STRAY seconds or more. */
  predicate LongRead(e: Entry)
  {
    e.lastReadMax - e.firstReadMin >= T_STRAY
  }

  /** What one pass of getReadsStrays adds to reads for a tag: the best
      estimate of a quiet tag that is no stray, the first read time (sample
      size 1) of a tag just found to be a stray, nothing otherwise. */
  function ReadOf(tag: Tag, e: Entry, trNow: real, quad: Regression): (r: Option<Read>)
    requires e.Wf()
    ensures r.Some? ==> r.value.tag == tag
    ensures r.Some? <==> !e.isStray && (Quiet(e, trNow) || LongRead(e))
    ensures r.Some? && !Quiet(e, trNow) ==> r.value == Read(tag, e.firstReadMin, 1)
    ensures r.Some? && e.Bounded() ==> e.firstReadMin <= r.value.t <= e.lastReadMax
  {
    if Quiet(e, trNow) then
      if e.isStray then None
      else
        var est := e.Estimate(quad);
        Some(Read(tag, est.0, est.1))
    else if LongRead(e) && !e.isStray then
      assert e.Bounded() ==> e.firstReadMin <= e.lastReadMax;
      Some(Read(tag, e.firstReadMin, 1))
    else None
  }

  /** What one pass of getReadsStrays adds to strays for a tag: its first
      read time while it is read across T_STRAY seconds without going quiet. */
  function StrayOf(tag: Tag, e: Entry, trNow: real): (r: Option<StrayRead>)
    ensures r.Some? <==> !Quiet(e, trNow) && LongRead(e)
    ensures r.Some? ==> r.value == StrayRead(tag, e.firstReadMin)
  {
    if !Quiet(e, trNow) && LongRead(e) then Some(StrayRead(tag, e.firstReadMin)) else None
  }

  /** A tag's entry after one pass of getReadsStrays (when it is kept): a
      tag just found to be a stray has setStray applied. */
  function Settled(e: Entry, trNow: real): (s: Entry)
    requires e.Wf()
    ensures s.Wf() && s.firstReadMin == e.firstReadMin && s.lastReadMax == e.lastReadMax
    ensures s.isStray <==> e.isStray || (!Quiet(e, trNow) && LongRead(e))
    ensures e.Bounded() ==> s.Bounded()
  {
    if !Quiet(e, trNow) && LongRead(e) && !e.isStray then
      if e.Bounded() then StrayedBounded(e); e.Strayed() else e.Strayed()
    else e
  }

  /** The tag dictionary seen as values. */
  type Snapshot = map<Tag, Entry>

  predicate AllWf(snap: Snapshot)
  {
    forall t :: t in snap ==> snap[t].Wf()
  }

  /** The reads getReadsStrays reports for the tags in keys. */
  function DueReads(snap: Snapshot, keys: set<Tag>, trNow: real, quad: Regression): set<Read>
    requires AllWf(snap)
  {
    set t | t in keys && t in snap && ReadOf(t, snap[t], trNow, quad).Some? :: ReadOf(t, snap[t], trNow, quad).value
  }

  /** The strays getReadsStrays reports for the tags in keys. */
  function DueStrays(snap: Snapshot, keys: set<Tag>, trNow: real): set<StrayRead>
  {
    set t | t in keys && t in snap && StrayOf(t, snap[t], trNow).Some? :: StrayOf(t, snap[t], trNow).value
  }

  /** Visiting one more tag adds its report, if any, to the reads of the
      tags visited so far. */
  lemma DueReadsStep(snap: Snapshot, keys: set<Tag>, tag: Tag, trNow: real, quad: Regression)
    requires AllWf(snap) && tag in snap && tag !in keys
    ensures multiset(DueReads(snap, keys + {tag}, trNow, quad)) ==
              multiset(DueReads(snap, keys, trNow, quad)) +
              (if ReadOf(tag, snap[tag], trNow, quad).Some? then multiset{ReadOf(tag, snap[tag], trNow, quad).value} else multiset{})
  {
    var before := DueReads(snap, keys, trNow, quad);
    var after := DueReads(snap, keys + {tag}, trNow, quad);
    var r := ReadOf(tag, snap[tag], trNow, quad);
    if r.Some? {
      assert r.value !in before by {
        if r.value in before {
          DueReadOfTag(snap, keys, trNow, quad, r.value);
        }
      }
      assert after == before + {r.value};
    } else {
      assert after == before;
    }
  }

  /** The same for strays. */
  lemma DueStraysStep(snap: Snapshot, keys: set<Tag>, tag: Tag, trNow: real)
    requires tag in snap && tag !in keys
    ensures multiset(DueStrays(snap, keys + {tag}, trNow)) ==
              multiset(DueStrays(snap, keys, trNow)) +
              (if StrayOf(tag, snap[tag], trNow).Some? then multiset{StrayOf(tag, snap[tag], trNow).value} else multiset{})
  {
    var before := DueStrays(snap, keys, trNow);
    var after := DueStrays(snap, keys + {tag}, trNow);
    var r := StrayOf(tag, snap[tag], trNow);
    if r.Some? {
      assert r.value !in before;
      assert after == before + {r.value};
    } else {
      assert after == before;
    }
  }

  /** The dictionary part-way through getReadsStrays: the tags in done
      settled, the others as they were. */
  function Partly(snap: Snapshot, done: set<Tag>, trNow: real): (p: Snapshot)
    requires AllWf(snap)
    ensures p.Keys == snap.Keys && AllWf(p)
  {
    map t | t in snap :: if t in done then Settled(snap[t], trNow) else snap[t]
  }

  /** Settling one more tag. */
  lemma PartlyStep(snap: Snapshot, done: set<Tag>, tag: Tag, trNow: real)
    requires AllWf(snap) && tag in snap
    ensures Partly(snap, done + {tag}, trNow) == Partly(snap, done, trNow)[tag := Settled(snap[tag], trNow)]
  {
    var p, q := Partly(snap, done + {tag}, trNow), Partly(snap, done, trNow)[tag := Settled(snap[tag], trNow)];
    assert p.Keys == q.Keys;
    forall t | t in p
      ensures p[t] == q[t]
    {
    }
  }

  /** The dictionary after getReadsStrays: quiet tags are deleted, the
      others settled. */
  function Kept(snap: Snapshot, trNow: real): (k: Snapshot)
    requires AllWf(snap)
    ensures AllWf(k)
    ensures forall t :: t in k <==> t in snap && !Quiet(snap[t], trNow)
  {
    map t | t in snap && !Quiet(snap[t], trNow) :: Settled(snap[t], trNow)
  }

  /** A dictionary holding exactly the tags not quiet, each settled, is
      the one getReadsStrays leaves. */
  lemma KeptFrom(snap: Snapshot, trNow: real, m: Snapshot)
    requires AllWf(snap)
    requires forall t :: t in m <==> t in snap && !Quiet(snap[t], trNow)
    requires forall t :: t in m ==> t in snap && m[t] == Settled(snap[t], trNow)
    ensures m == Kept(snap, trNow)
  {
    var k := Kept(snap, trNow);
    assert m.Keys == k.Keys;
  }

  /** Python's <= on tags. */
  predicate TagLe(a: Tag, b: Tag)
  {
    a == b || StrLt(a, b)
  }

  /** operator.itemgetter(1, 0) on reads: by time, then by tag. */
  predicate ReadLe(a: Read, b: Read)
  {
    a.t < b.t || (a.t == b.t && TagLe(a.tag, b.tag))
  }

  /** operator.itemgetter(1, 0) on strays: by time, then by tag. */
  predicate StrayLe(a: StrayRead, b: StrayRead)
  {
    a.t < b.t || (a.t == b.t && TagLe(a.tag, b.tag))
  }

  lemma TagLeOrders()
    ensures forall a, b :: TagLe(a, b) || TagLe(b, a)
    ensures forall a, b :: TagLe(a, b) && TagLe(b, a) ==> a == b
    ensures forall a, b, c :: TagLe(a, b) && TagLe(b, c) ==> TagLe(a, c)
  {
    forall a, b
      ensures TagLe(a, b) || TagLe(b, a)
    {
      StrLtTotal(a, b);
    }
    forall a, b | TagLe(a, b) && TagLe(b, a)
      ensures a == b
    {
      StrLtAsymmetric(a, b);
    }
    forall a, b, c | TagLe(a, b) && TagLe(b, c)
      ensures TagLe(a, c)
    {
      if a != b && b != c {
        StrLtTransitive(a, b, c);
      }
    }
  }

  /** Sorting by (time, tag) is a total preorder, so sorted() applies. */
  lemma ReadLeOrders()
    ensures TotalPreorder(ReadLe)
    ensures forall a, b :: ReadLe(a, b) && ReadLe(b, a) ==> a.t == b.t && a.tag == b.tag
  {
    TagLeOrders();
  }

  lemma StrayLeOrders()
    ensures TotalPreorder(StrayLe)
    ensures forall a, b :: StrayLe(a, b) && StrayLe(b, a) ==> a == b
  {
    TagLeOrders();
  }

  /** Every reported read is the report of its own tag. */
  lemma DueReadOfTag(snap: Snapshot, keys: set<Tag>, trNow: real, quad: Regression, x: Read)
    requires AllWf(snap) && x in DueReads(snap, keys, trNow, quad)
    ensures x.tag in keys && x.tag in snap && ReadOf(x.tag, snap[x.tag], trNow, quad) == Some(x)
  {
    var t :| t in keys && t in snap && ReadOf(t, snap[t], trNow, quad).Some? && ReadOf(t, snap[t], trNow, quad).value == x;
  }

  /** A quiet tag that is no stray is deleted and reported in reads exactly
      once, with its best estimate; a quiet stray is deleted unreported. */
  lemma QuietReportedOnce(snap: Snapshot, trNow: real, quad: Regression, rs: seq<Read>, tag: Tag)
    requires AllWf(snap) && multiset(rs) == multiset(DueReads(snap, snap.Keys, trNow, quad))
    requires tag in snap && Quiet(snap[tag], trNow)
    ensures tag !in Kept(snap, trNow)
    ensures !snap[tag].isStray ==>
              var est := snap[tag].Estimate(quad);
              multiset(rs)[Read(tag, est.0, est.1)] == 1
    ensures forall x :: x in rs && x.tag == tag ==>
              !snap[tag].isStray && x == Read(tag, snap[tag].Estimate(quad).0, snap[tag].Estimate(quad).1)
  {
    forall x | x in rs && x.tag == tag
      ensures !snap[tag].isStray && x == Read(tag, snap[tag].Estimate(quad).0, snap[tag].Estimate(quad).1)
    {
      assert x in multiset(rs);
      DueReadOfTag(snap, snap.Keys, trNow, quad, x);
    }
    if !snap[tag].isStray {
      assert ReadOf(tag, snap[tag], trNow, quad).Some?;
    }
  }

  /** A tag read across T_STRAY seconds without going quiet stays, marked as
      a stray; it is in strays at its first read time, and in reads (with
      sample size 1) exactly when it was not a stray already. */
  lemma StrayReported(snap: Snapshot, trNow: real, quad: Regression, rs: seq<Read>, ss: seq<StrayRead>, tag: Tag)
    requires AllWf(snap) && multiset(rs) == multiset(DueReads(snap, snap.Keys, trNow, quad))
    requires multiset(ss) == multiset(DueStrays(snap, snap.Keys, trNow))
    requires tag in snap && !Quiet(snap[tag], trNow) && LongRead(snap[tag])
    ensures tag in Kept(snap, trNow) && Kept(snap, trNow)[tag].isStray
    ensures Kept(snap, trNow)[tag].firstReadMin == snap[tag].firstReadMin
    ensures multiset(ss)[StrayRead(tag, snap[tag].firstReadMin)] == 1
    ensures snap[tag].isStray ==> forall x :: x in rs ==> x.tag != tag
    ensures !snap[tag].isStray ==> multiset(rs)[Read(tag, snap[tag].firstReadMin, 1)] == 1
  {
    assert StrayOf(tag, snap[tag], trNow).Some?;
    if snap[tag].isStray {
      forall x | x in rs
        ensures x.tag != tag
      {
        assert x in multiset(rs);
        DueReadOfTag(snap, snap.Keys, trNow, quad, x);
      }
    } else {
      assert ReadOf(tag, snap[tag], trNow, quad).Some?;
    }
  }

  /** A stray stays a stray through later reads and passes: it is never in
      reads again, and it is in strays on every pass until it goes quiet. */
  lemma StrayStaysReported(e: Entry, slot: nat, tr: real, db: real, trNow: real, tag: Tag, quad: Regression)
    requires e.Wf() && e.isStray && LongRead(e) && slot < 4
    ensures e.Added(slot, tr, db).isStray && LongRead(e.Added(slot, tr, db))
    ensures Settled(e, trNow) == e
    ensures ReadOf(tag, e, trNow, quad).None?
    ensures !Quiet(e, trNow) ==> StrayOf(tag, e, trNow) == Some(StrayRead(tag, e.firstReadMin))
  {
  }

  /** Distinct reported items never tie under (time, tag): the sorted lists
      do not depend on the order in which the dictionary is visited. */
  lemma ReadsDetermined(snap: Snapshot, trNow: real, quad: Regression, r1: seq<Read>, r2: seq<Read>)
    requires AllWf(snap)
    requires SortedBy(r1, ReadLe) && multiset(r1) == multiset(DueReads(snap, snap.Keys, trNow, quad))
    requires SortedBy(r2, ReadLe) && multiset(r2) == multiset(DueReads(snap, snap.Keys, trNow, quad))
    ensures r1 == r2
  {
    ReadLeOrders();
    forall i, j | 0 <= i < |r1| && 0 <= j < |r1| && ReadLe(r1[i], r1[j]) && ReadLe(r1[j], r1[i])
      ensures r1[i] == r1[j]
    {
      assert r1[i] in multiset(r1) && r1[j] in multiset(r1);
      DueReadOfTag(snap, snap.Keys, trNow, quad, r1[i]);
      DueReadOfTag(snap, snap.Keys, trNow, quad, r1[j]);
    }
    SortedUnique(r1, r2, ReadLe);
  }

  lemma StraysDetermined(s1: seq<StrayRead>, s2: seq<StrayRead>)
    requires SortedBy(s1, StrayLe) && SortedBy(s2, StrayLe) && multiset(s1) == multiset(s2)
    ensures s1 == s2
  {
    StrayLeOrders();
    SortedUnique(s1, s2, StrayLe);
  }

  // ---------------------------------------------------------------- the reads seen

  /** A well-formed entry whose reads all lie in [firstReadMin,
      lastReadMax], these being the least and greatest of the read times seen. */
  ghost predicate Consistent(e: Entry, seen: seq<real>)
  {
    && e.Wf() && e.Bounded()
    && e.firstReadMin in seen && e.lastReadMax in seen
    && forall k :: 0 <= k < |seen| ==> e.firstReadMin <= seen[k] <= e.lastReadMax
  }

  /** After TagGroupEntry(antenna, t, db) the only read time seen is t. */
  lemma StartedConsistent(slot: nat, tr: real, db: real)
    requires slot < 4 && Finite(tr)
    ensures Consistent(Started(slot, tr, db), [tr])
  {
  }

  /** add keeps firstReadMin and lastReadMax the least and greatest read
      times seen, with every read held between them. */
  lemma AddedConsistent(e: Entry, slot: nat, tr: real, db: real, seen: seq<real>)
    requires Consistent(e, seen) && slot < 4
    ensures Consistent(e.Added(slot, tr, db), seen + [tr])
  {
    AddedBounded(e, slot, tr, db);
    var e' := e.Added(slot, tr, db);
    var seen' := seen + [tr];
    assert e'.firstReadMin in seen' && e'.lastReadMax in seen';
    forall k | 0 <= k < |seen'|
      ensures e'.firstReadMin <= seen'[k] <= e'.lastReadMax
    {
      if k < |seen| {
        assert seen'[k] == seen[k];
      }
    }
  }

  /** setStray keeps the entry consistent with the read times seen. */
  lemma StrayedConsistent(e: Entry, seen: seq<real>)
    requires Consistent(e, seen)
    ensures Consistent(e.Strayed(), seen)
  {
    StrayedBounded(e);
  }
}

