/** The objects of CrossMgrImpinj's tag-read grouping: the reads of one tag
    at one antenna, everything gathered about one tag, and the table of all
    tags. Each object holds a value of TagGroupModel, which states what it
    computes. */
module TagGroups {
  import opened PyText
  import opened Sorting
  import opened TagGroupModel

  /** The reads of one tag at one antenna. */
  class AntennaReads {
    var firstRead: real
    var readList: seq<Sample>
    var dbMax: real

    function State(): Antenna
      reads this
    {
      Antenna(firstRead, readList, dbMax)
    }

    constructor(tr: real, db: real)
      ensures State() == Opened(tr, db)
    {
      firstRead := tr;
      readList := [(tr, db)];
      dbMax := db;
    }

    method Add(tr: real, db: real)
      requires State().Wf()
      modifies this
      ensures State() == old(State()).Added(tr, db)
    {
      if State().IsStray() {
        if |readList| > 1 {
          readList := readList[|readList| - 1..];
        }
        readList := readList[|readList| - 1 := (tr, db)];
      } else {
        readList := readList + [(tr, db)];
        if db > dbMax {
          dbMax := db;
        }
      }
    }

    /** del reads[:-1]: keep only the newest read. */
    method DropOlder()
      requires State().Wf()
      modifies this
      ensures State() == old(State()).Trimmed()
    {
      readList := readList[|readList| - 1..];
    }
  }

  /** Everything gathered about one tag: up to four antennas' reads and the
      overall first and last read times. */
  class TagGroupEntry {
    /** Slot i holds the reads at antenna i + 1, if it has read the tag. */
    var antennaReads: seq<Option<Antenna>>
    var firstReadMin: real
    var lastReadMax: real
    var isStray: bool
    /** The time of every read ever added. */
    ghost var seen: seq<real>

    function State(): Entry
      reads this
    {
      Entry(antennaReads, firstReadMin, lastReadMax, isStray)
    }

    /** The fields hold a well-formed entry whose reads all lie in
        [firstReadMin, lastReadMax], these being the least and greatest read
        times seen. */
    ghost predicate Valid()
      reads this
    {
      Consistent(State(), seen)
    }

    /** TagGroupEntry(antenna, t, db): empty slots and the float extremes,
        then the first add. */
    constructor(antenna: int, tr: real, db: real)
      requires SlotOf(antenna).Some? && Finite(tr)
      ensures Valid()
      ensures State() == Started(SlotOf(antenna).value, tr, db)
      ensures seen == [tr]
    {
      antennaReads := [None, None, None, None];
      firstReadMin, lastReadMax := FLOAT_MAX, -FLOAT_MAX;
      isStray := false;
      new;
      var i := SlotOf(antenna).value;
      antennaReads := antennaReads[i := Some(Opened(tr, db))];
      if tr < firstReadMin {
        firstReadMin := tr;
      }
      if tr > lastReadMax {
        lastReadMax := tr;
      }
      seen := [tr];
      StartedConsistent(i, tr, db);
    }

    /** add: false, with nothing changed, where Python raises IndexError. */
    method Add(antenna: int, tr: real, db: real) returns (ok: bool)
      requires Valid()
      modifies this
      ensures Valid()
      ensures ok <==> SlotOf(antenna).Some?
      ensures !ok ==> State() == old(State()) && seen == old(seen)
      ensures ok ==> State() == old(State()).Added(SlotOf(antenna).value, tr, db) && seen == old(seen) + [tr]
    {
      var slot := SlotOf(antenna);
      if slot.None? {
        return false;
      }
      var i := slot.value;
      ghost var before := State();
      if antennaReads[i].None? {
        antennaReads := antennaReads[i := Some(Opened(tr, db))];
      } else {
        antennaReads := antennaReads[i := Some(antennaReads[i].value.Added(tr, db))];
      }
      if tr < firstReadMin {
        firstReadMin := tr;
      }
      if tr > lastReadMax {
        lastReadMax := tr;
      }
      seen := seen + [tr];
      AddedShape(before, i, tr, db);
      AddedConsistent(before, i, tr, db, old(seen));
      ok := true;
    }

    /** setStray: every antenna in use keeps only its newest read. */
    method SetStray()
      requires Valid()
      modifies this
      ensures Valid() && seen == old(seen)
      ensures State() == old(State()).Strayed()
    {
      ghost var before := State();
      for i := 0 to 4
        modifies this`antennaReads
        invariant |antennaReads| == 4
        invariant forall j :: 0 <= j < i ==> antennaReads[j] == Trim(before.slots[j])
        invariant forall j :: i <= j < 4 ==> antennaReads[j] == before.slots[j]
      {
        if antennaReads[i].Some? {
          antennaReads := antennaReads[i := Some(antennaReads[i].value.Trimmed())];
        }
      }
      isStray := true;
      StrayedShape(before);
      StrayedConsistent(before, seen);
    }
  }

  /** What TagGroup.add gives back: Python's bool (true for a tag not seen
      before), or the IndexError an antenna outside 1..4 (or -3..0, through
      negative indexing) raises. */
  datatype AddOutcome = Returned(isNew: bool) | IndexError

  /** The tags being read, each with its entry. The entries are held as
      Entry values that the methods reassign into the dictionary. */
  class TagGroup {
    var tagInfo: map<Tag, Entry>

    /** Every entry is well formed. */
    predicate Valid()
      reads this
    {
      AllWf(tagInfo)
    }

    constructor()
      ensures Valid() && tagInfo == map[]
    {
      tagInfo := map[];
    }

    /** add: an unknown tag gets a new entry, a known one the read. */
    method Add(antenna: int, tag: Tag, tr: real, db: real) returns (r: AddOutcome)
      requires Valid() && Finite(tr)
      modifies this
      ensures Valid()
      ensures r == if SlotOf(antenna).None? then IndexError else Returned(tag !in old(tagInfo))
      ensures r.IndexError? ==> tagInfo == old(tagInfo)
      ensures r == Returned(false) ==> tagInfo == old(tagInfo)[tag := old(tagInfo)[tag].Added(SlotOf(antenna).value, tr, db)]
      ensures r == Returned(true) ==> tagInfo == old(tagInfo)[tag := Started(SlotOf(antenna).value, tr, db)]
    {
      var slot := SlotOf(antenna);
      if slot.None? {
        // tagInfo[tag].add(...) and TagGroupEntry(antenna, t, db) both raise
        // before the dictionary changes.
        return IndexError;
      }
      if tag in tagInfo {
        tagInfo := tagInfo[tag := tagInfo[tag].Added(slot.value, tr, db)];
        r := Returned(false);
      } else {
        tagInfo := tagInfo[tag := Started(slot.value, tr, db)];
        r := Returned(true);
      }
    }

    /** getReadsStrays: report the tags gone quiet (deleting them) and the
        strays, each list sorted by time, then tag. */
    method GetReadsStrays(trNow: real, quad: Regression) returns (tagReads: seq<Read>, strays: seq<StrayRead>)
      requires Valid()
      modifies this
      ensures Valid()
      ensures tagInfo == Kept(old(tagInfo), trNow)
      ensures SortedBy(tagReads, ReadLe)
      ensures multiset(tagReads) == multiset(DueReads(old(tagInfo), old(tagInfo).Keys, trNow, quad))
      ensures SortedBy(strays, StrayLe)
      ensures multiset(strays) == multiset(DueStrays(old(tagInfo), old(tagInfo).Keys, trNow))
    {
      ghost var snap := tagInfo;
      var found, lost, toDelete := Scan(trNow, quad);
      ghost var scanned := tagInfo;
      for k := 0 to |toDelete|
        invariant forall t :: t in tagInfo <==> t in scanned && t !in toDelete[..k]
        invariant forall t :: t in tagInfo ==> tagInfo[t] == scanned[t]
      {
        assert toDelete[..k + 1] == toDelete[..k] + [toDelete[k]];
        tagInfo := tagInfo - {toDelete[k]};
      }
      assert toDelete[..|toDelete|] == toDelete;
      KeptFrom(snap, trNow, tagInfo);
      ReadLeOrders();
      StrayLeOrders();
      tagReads := Sort(found, ReadLe);
      strays := Sort(lost, StrayLe);
    }

    /** One turn of the loop in getReadsStrays: a quiet tag's estimate
        unless it is a stray, and its deletion; a tag read for T_STRAY
        seconds or more is a stray, reported with its first read time, and
        on the turn it becomes one setStray trims it and its first read time
        is also reported as a read. */
    static method Visit(tag: Tag, tge: Entry, trNow: real, quad: Regression)
      returns (settled: Entry, read: Option<Read>, stray: Option<StrayRead>, quiet: bool)
      requires tge.Wf()
      ensures settled == Settled(tge, trNow)
      ensures read == ReadOf(tag, tge, trNow, quad)
      ensures stray == StrayOf(tag, tge, trNow)
      ensures quiet <==> Quiet(tge, trNow)
    {
      settled, read, stray, quiet := tge, None, None, false;
      if trNow - tge.lastReadMax >= T_QUIET {
        if !tge.isStray {
          var est := tge.Estimate(quad);
          read := Some(Read(tag, est.0, est.1));
        }
        quiet := true;
      } else if tge.lastReadMax - tge.firstReadMin >= T_STRAY {
        if !tge.isStray {
          settled := tge.Strayed();
          read := Some(Read(tag, tge.firstReadMin, 1));
        }
        stray := Some(StrayRead(tag, tge.firstReadMin));
      }
    }

    /** The loop over the dictionary: each tag's report, setStray on a tag
        just found to be a stray, and the quiet tags to delete. */
    method Scan(trNow: real, quad: Regression) returns (found: seq<Read>, strays: seq<StrayRead>, toDelete: seq<Tag>)
      requires Valid()
      modifies this
      ensures tagInfo == Partly(old(tagInfo), old(tagInfo).Keys, trNow)
      ensures multiset(found) == multiset(DueReads(old(tagInfo), old(tagInfo).Keys, trNow, quad))
      ensures multiset(strays) == multiset(DueStrays(old(tagInfo), old(tagInfo).Keys, trNow))
      ensures forall t :: t in toDelete <==> t in old(tagInfo) && Quiet(old(tagInfo)[t], trNow)
    {
      ghost var snap := tagInfo;
      ghost var done: set<Tag> := {};
      var pending := tagInfo.Keys;
      found, strays, toDelete := [], [], [];
      while pending != {}
        invariant forall t :: t in snap <==> t in done || t in pending
        invariant forall t :: t in pending ==> t !in done
        invariant tagInfo == Partly(snap, done, trNow)
        invariant multiset(found) == multiset(DueReads(snap, done, trNow, quad))
        invariant multiset(strays) == multiset(DueStrays(snap, done, trNow))
        invariant forall t :: t in toDelete <==> t in done && Quiet(snap[t], trNow)
        decreases pending
      {
        var tag :| tag in pending;
        DueReadsStep(snap, done, tag, trNow, quad);
        DueStraysStep(snap, done, tag, trNow);
        PartlyStep(snap, done, tag, trNow);
        var settled, read, stray, quiet := Visit(tag, tagInfo[tag], trNow, quad);
        tagInfo := tagInfo[tag := settled];
        found := found + (if read.Some? then [read.value] else []);
        strays := strays + (if stray.Some? then [stray.value] else []);
        toDelete := toDelete + (if quiet then [tag] else []);
        done := done + {tag};
        pending := pending - {tag};
      }
      assert done == snap.Keys;
    }
  }
}
