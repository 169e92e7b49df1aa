/**
 The race detector: shadow memory changed in place, and the races reported so
 far. Words and records denote the same sets of earlier accesses and report the
 same races, and up to the first race they are as good as the whole history.
 */
module RaceDetection {
  import opened Clocks
  import opened ShadowWord
  import opened DataRaces
  import opened RaceHistory

  class RaceDetector {
    var shadow: map<nat, Shadow>
    var unrealized: seq<DataRace>

    /** The accesses so far, by address. */
    ghost var history: map<nat, seq<Access>>

    ghost function History(location: nat): (h: seq<Access>)
      reads this
    {
      if location in history then history[location] else []
    }

    /** Every address remembers what its history says. */
    ghost predicate Valid()
      reads this
    {
      forall location: nat :: Known(location) == SeenAt(History(location), |History(location)|)
    }

    constructor ()
      ensures Valid() && shadow == map[] && unrealized == [] && history == map[]
    {
      shadow, unrealized, history := map[], [], map[];
      new;
      UntouchedWord();
    }

    /** lookupAddressEntry: untouched memory has the word 0. */
    function Entry(location: nat): (s: Shadow)
      reads this
    {
      if location in shadow then shadow[location] else Short(0)
    }

    ghost function Known(location: nat): (s: Seen)
      reads this
    {
      Denotes(Entry(location))
    }

    /** reportDataRace, for a prefix that is not known to be feasible. */
    method Report(s: Stamp, wasWrite: bool, action: nat, isWrite: bool, address: nat)
      modifies this`unrealized
      ensures unrealized == old(unrealized) + [DataRace(s, wasWrite, action, isWrite, address)]
    {
      unrealized := unrealized + [DataRace(s, wasWrite, action, isWrite, address)];
    }

    /** expandRecord. */
    method ExpandRecord(location: nat)
      requires Entry(location).Short?
      modifies this`shadow
      ensures Entry(location).Full? && Known(location) == old(Known(location))
      ensures shadow == old(shadow)[location := Entry(location)]
    {
      var w := Entry(location).word;
      var kept := [];
      if ReadVector(w) != 0 {
        kept := [Stamp(RdThreadId(w), ReadVector(w))];
      }
      var record := RaceRecord(kept, Stamp(WrThreadId(w), WriteVector(w)));
      shadow := shadow[location := Full(record)];
    }

    /** fullRaceCheckRead: keeps the reads that this one does not subsume, in place. */
    method FullCheckRead(tid: nat, location: nat, cv: Clock, action: nat)
      requires Entry(location).Full?
      modifies this`shadow, this`unrealized
      ensures Known(location) == AfterRead(old(Known(location)), tid, cv)
      ensures shadow == old(shadow)[location := Entry(location)]
      ensures Reports(old(unrealized), unrealized, ReadRaces(old(Known(location)), tid, cv, action, location))
    {
      hide Racing, LiveOf, RacesWith, MayRace, Reports, Live, At;
      var record := Entry(location).record;
      ReportsNone(unrealized);
      ReportsMore(unrealized, unrealized, {}, DataRace(record.writer, true, action, false, location));
      assert {} + {DataRace(record.writer, true, action, false, location)} ==
          {DataRace(record.writer, true, action, false, location)};
      RacingLive(record.writer, tid, cv, true, action, false, location);
      if MayRace(cv, tid, record.writer) {
        Report(record.writer, true, action, false, location);
      }
      KeptNone(tid, cv);
      var kept := record.readers;
      var copyTo, i := 0, 0;
      while i < |record.readers|
        invariant 0 <= copyTo <= i <= |record.readers| == |kept|
        invariant kept[i..] == record.readers[i..]
        invariant LiveOf(kept[..copyTo]) == Racing(LiveOf(record.readers[..i]), tid, cv)
        invariant shadow == old(shadow)
        invariant Reports(old(unrealized), unrealized, ReadRaces(old(Known(location)), tid, cv, action, location))
      {
        assert kept[i] == kept[i..][0] == record.readers[i..][0] == record.readers[i];
        RacingMore(record.readers[..i], record.readers[i], tid, cv);
        assert record.readers[..i + 1] == record.readers[..i] + [record.readers[i]];
        if MayRace(cv, tid, kept[i]) {
          LiveMore(kept[..copyTo], kept[i], tid, cv);
          if copyTo != i {
            kept := kept[copyTo := kept[i]];
          }
          assert kept[..copyTo + 1] == kept[..copyTo] + [record.readers[i]];
          copyTo := copyTo + 1;
        }
        assert forall k :: i < k < |kept| ==> kept[k] == record.readers[k];
        i := i + 1;
      }
      assert record.readers[..i] == record.readers;
      LiveLast(kept[..copyTo], Own(tid, cv));
      shadow := shadow[location := Full(RaceRecord(kept[..copyTo] + [Own(tid, cv)], record.writer))];
    }

    /** fullRaceCheckWrite. */
    method FullCheckWrite(tid: nat, location: nat, cv: Clock, action: nat)
      requires Entry(location).Full?
      modifies this`shadow, this`unrealized
      ensures Known(location) == AfterWrite(tid, cv)
      ensures shadow == old(shadow)[location := Entry(location)]
      ensures Reports(old(unrealized), unrealized, WriteRaces(old(Known(location)), tid, cv, action, location))
    {
      hide Racing, LiveOf, RacesWith, MayRace, Reports, Live, At;
      var record := Entry(location).record;
      ReportsNone(unrealized);
      KeptNone(tid, cv);
      RacesNone(false, action, true, location);
      var i := 0;
      while i < |record.readers|
        invariant 0 <= i <= |record.readers| && shadow == old(shadow)
        invariant Reports(old(unrealized), unrealized,
                          RacesWith(Racing(LiveOf(record.readers[..i]), tid, cv), false, action, true, location))
      {
        RacingMore(record.readers[..i], record.readers[i], tid, cv);
        RacesMore(Racing(LiveOf(record.readers[..i]), tid, cv), record.readers[i], false, action, true, location);
        ReportsMore(old(unrealized), unrealized,
                    RacesWith(Racing(LiveOf(record.readers[..i]), tid, cv), false, action, true, location),
                    DataRace(record.readers[i], false, action, true, location));
        assert record.readers[..i + 1] == record.readers[..i] + [record.readers[i]];
        if MayRace(cv, tid, record.readers[i]) {
          Report(record.readers[i], false, action, true, location);
        }
        i := i + 1;
      }
      assert record.readers[..i] == record.readers;
      RacingLive(record.writer, tid, cv, true, action, true, location);
      ReportsMore(old(unrealized), unrealized,
                  RacesWith(Racing(LiveOf(record.readers), tid, cv), false, action, true, location),
                  DataRace(record.writer, true, action, true, location));
      if MayRace(cv, tid, record.writer) {
        Report(record.writer, true, action, true, location);
      }
      LiveNone();
      shadow := shadow[location := Full(RaceRecord([], Own(tid, cv)))];
    }

    /** raceCheckWrite on the shadow value. */
    method CheckWrite(tid: nat, location: nat, cv: Clock, action: nat)
      modifies this`shadow, this`unrealized
      ensures Known(location) == AfterWrite(tid, cv)
      ensures shadow == old(shadow)[location := Entry(location)]
      ensures Reports(old(unrealized), unrealized, WriteRaces(old(Known(location)), tid, cv, action, location))
    {
      if Entry(location).Full? {
        FullCheckWrite(tid, location, cv, action);
        return;
      }
      var ours := At(cv, tid);
      if tid > MAX_THREAD_ID || ours > MAX_VECTOR {
        ExpandRecord(location);
        FullCheckWrite(tid, location, cv, action);
        return;
      }
      hide Racing, RacesWith, MayRace, Reports, Live, At, EncodeOp, RdThreadId, ReadVector, WrThreadId, WriteVector;
      var w := Entry(location).word;
      var read := Stamp(RdThreadId(w), ReadVector(w));
      ReportsNone(unrealized);
      RacingLive(read, tid, cv, false, action, true, location);
      ReportsMore(unrealized, unrealized, {}, DataRace(read, false, action, true, location));
      if MayRace(cv, tid, read) {
        Report(read, false, action, true, location);
      }
      var write := Stamp(WrThreadId(w), WriteVector(w));
      RacingLive(write, tid, cv, true, action, true, location);
      ReportsMore(old(unrealized), unrealized, RacesWith(Racing(Live(read), tid, cv), false, action, true, location),
                  DataRace(write, true, action, true, location));
      if MayRace(cv, tid, write) {
        Report(write, true, action, true, location);
      }
      RoundTrip(0, 0, tid, ours);
      LiveZero();
      shadow := shadow[location := Short(EncodeOp(0, 0, tid, ours))];
    }

    /** raceCheckRead. When the word cannot hold the read, the race with the last write is reported a second time. */
    method CheckRead(tid: nat, location: nat, cv: Clock, action: nat)
      modifies this`shadow, this`unrealized
      ensures Known(location) == AfterRead(old(Known(location)), tid, cv)
      ensures shadow == old(shadow)[location := Entry(location)]
      ensures Reports(old(unrealized), unrealized, ReadRaces(old(Known(location)), tid, cv, action, location))
    {
      if Entry(location).Full? {
        FullCheckRead(tid, location, cv, action);
        return;
      }
      var ours := At(cv, tid);
      if tid > MAX_THREAD_ID || ours > MAX_VECTOR {
        ExpandRecord(location);
        FullCheckRead(tid, location, cv, action);
        return;
      }
      var w := Entry(location).word;
      var write := Stamp(WrThreadId(w), WriteVector(w));
      if MayRace(cv, tid, write) {
        Report(write, true, action, false, location);
      }
      var read := Stamp(RdThreadId(w), ReadVector(w));
      if MayRace(cv, tid, read) {
        ghost var middle := unrealized;
        ExpandRecord(location);
        FullCheckRead(tid, location, cv, action);
        ReportsTwice(old(unrealized), middle, unrealized, ReadRaces(old(Known(location)), tid, cv, action, location));
        return;
      }
      RoundTrip(tid, ours, write.tid, write.clock);
      shadow := shadow[location := Short(EncodeOp(tid, ours, write.tid, write.clock))];
    }

    /**
     An access with its history. Up to the first race at the address, races are reported
     exactly when the access is unordered with some earlier conflicting one.
     */
    method Check(tid: nat, write: bool, location: nat, cv: Clock, action: nat)
      requires Valid()
      modifies this
      ensures Valid() && History(location) == old(History(location)) + [Access(tid, write, cv)]
      ensures forall l: nat :: l != location ==> History(l) == old(History(l))
      ensures var h := History(location);
              HistoryClocked(h) && (forall j: nat :: j < |h| - 1 ==> !Unordered(h, j)) ==>
                (|unrealized| > |old(unrealized)| <==> Unordered(h, |h| - 1))
      ensures old(unrealized) <= unrealized && forall r :: r in unrealized[|old(unrealized)|..] ==>
                NamesConflict(History(location), r) && r.newAction == action && r.address == location
      ensures var h := History(location);
              HistoryClocked(h) && (forall j: nat :: j < |h| - 1 ==> !Unordered(h, j)) ==>
                AllRepresented(h, unrealized[|old(unrealized)|..])
    {
      hide NamesConflict, Represents, Conflict, RacesOf, Denotes, SeenAt, Racing, RacesWith, HistoryClocked, Unordered,
           AfterRead, AfterWrite, Flagged, Live;
      ghost var h, seen := History(location), Known(location);
      ghost var a := Access(tid, write, cv);
      SeenPrefix(h, a, |h|);
      SeenMore(h, a);
      if write {
        CheckWrite(tid, location, cv, action);
      } else {
        CheckRead(tid, location, cv, action);
      }
      history := history[location := h + [a]];
      assert forall l: nat :: l != location ==> Entry(l) == old(Entry(l)) && History(l) == old(History(l));
      FlaggedReported(h, a, action, location);
      ReportsSome(old(unrealized), unrealized, if write then WriteRaces(seen, tid, cv, action, location)
                                               else ReadRaces(seen, tid, cv, action, location));
      if HistoryClocked(h + [a]) && forall j: nat :: j < |h| ==> !Unordered(h + [a], j) {
        FlagsExactly(h + [a], |h|);
        forall i: nat | Conflict(h + [a], i, |h|)
          ensures exists r :: r in unrealized[|old(unrealized)|..] && Represents(h + [a], r, i)
        {
          ConflictsReported(h, a, action, location, i);
          AreRaces(seen, a, action, location);
        }
      }
      forall r | r in unrealized[|old(unrealized)|..]
        ensures NamesConflict(h + [a], r) && r.newAction == action && r.address == location
      {
        AreRaces(seen, a, action, location);
        ReportedConflicts(h, a, action, location, r);
      }
    }

    /**
     checkDataRaces: on a feasible prefix the reported races are judged again, with the
     clocks that the new actions have by now, and forgotten.
     */
    method CheckDataRaces(feasible: bool, actionTid: seq<nat>, actionCv: seq<Clock>) returns (asserted: seq<DataRace>)
      requires |actionTid| == |actionCv| && forall r :: r in unrealized ==> r.newAction < |actionCv|
      modifies this`unrealized
      ensures unrealized == if feasible then [] else old(unrealized)
      ensures forall r :: r in asserted <==>
                feasible && r in old(unrealized) && MayRace(actionCv[r.newAction], actionTid[r.newAction], r.earlier)
    {
      asserted := [];
      if feasible {
        var i := 0;
        while i < |unrealized|
          invariant 0 <= i <= |unrealized|
          invariant forall r :: r in asserted <==>
                      r in unrealized[..i] && MayRace(actionCv[r.newAction], actionTid[r.newAction], r.earlier)
        {
          var race := unrealized[i];
          assert unrealized[..i + 1] == unrealized[..i] + [race];
          if MayRace(actionCv[race.newAction], actionTid[race.newAction], race.earlier) {
            asserted := asserted + [race];
          }
          i := i + 1;
        }
        unrealized := [];
      }
    }
  }

  lemma AreRaces(seen: Seen, a: Access, action: nat, location: nat)
    ensures RacesOf(seen, a, action, location) == if a.write then WriteRaces(seen, a.tid, a.cv, action, location)
                                                  else ReadRaces(seen, a.tid, a.cv, action, location)
  {
  }

  lemma UntouchedWord()
    ensures Denotes(Short(0)) == Seen({}, {}) == SeenAt([], 0)
  {
  }

  lemma SeenMore(h: seq<Access>, a: Access)
    ensures SeenAt(h + [a], |h| + 1) ==
            if a.write then AfterWrite(a.tid, a.cv) else AfterRead(SeenAt(h, |h|), a.tid, a.cv)
  {
    SeenPrefix(h, a, |h|);
  }

  /** Races are reported exactly when the record flags the access. */
  lemma FlaggedReported(h: seq<Access>, a: Access, action: nat, location: nat)
    ensures var seen, f := SeenAt(h, |h|), Flagged(h + [a], |h|);
            f == {} <==> (if a.write then WriteRaces(seen, a.tid, a.cv, action, location)
                          else ReadRaces(seen, a.tid, a.cv, action, location)) == {}
  {
    SeenPrefix(h, a, |h|);
    var seen := SeenAt(h, |h|);
    EmptyRaces(Racing(seen.writers, a.tid, a.cv), true, action, a.write, location);
    EmptyRaces(Racing(seen.readers, a.tid, a.cv), false, action, a.write, location);
  }

  lemma EmptyRaces(stamps: set<Stamp>, wasWrite: bool, action: nat, isWrite: bool, location: nat)
    ensures RacesWith(stamps, wasWrite, action, isWrite, location) == {} <==> stamps == {}
  {
    if stamps != {} {
      var s :| s in stamps;
      assert DataRace(s, wasWrite, action, isWrite, location) in RacesWith(stamps, wasWrite, action, isWrite, location);
    }
  }
}
