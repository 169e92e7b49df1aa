/**
 What the race detector knows about an address: a shadow word or an expanded
 record, and the set of earlier accesses that both denote.
 */
module DataRaces {
  import opened Clocks
  import opened ShadowWord

  /** An access: the thread and its own clock. */
  datatype Stamp = Stamp(tid: nat, clock: nat)

  /** The accesses that an address remembers. */
  datatype Seen = Seen(readers: set<Stamp>, writers: set<Stamp>)

  datatype RaceRecord = RaceRecord(readers: seq<Stamp>, writer: Stamp)

  datatype Shadow = Short(word: nat) | Full(record: RaceRecord)

  datatype DataRace = DataRace(earlier: Stamp, wasWrite: bool, newAction: nat, isWrite: bool, address: nat)

  /** clock_may_race: the current clock does not rule out a race with the stamp. */
  predicate MayRace(cv: Clock, tid: nat, s: Stamp) {
    tid != s.tid && s.clock != 0 && At(cv, s.tid) <= s.clock
  }

  function Own(tid: nat, cv: Clock): Stamp { Stamp(tid, At(cv, tid)) }

  function Live(s: Stamp): set<Stamp> { if s.clock == 0 then {} else {s} }

  ghost function LiveOf(stamps: seq<Stamp>): set<Stamp> {
    set s | s in stamps && s.clock != 0
  }

  /** What a shadow value denotes. */
  ghost function Denotes(shadow: Shadow): Seen {
    match shadow
    case Short(w) => Seen(Live(Stamp(RdThreadId(w), ReadVector(w))), Live(Stamp(WrThreadId(w), WriteVector(w))))
    case Full(r) => Seen(LiveOf(r.readers), Live(r.writer))
  }

  ghost function Racing(stamps: set<Stamp>, tid: nat, cv: Clock): set<Stamp> {
    set s | s in stamps && MayRace(cv, tid, s)
  }

  /** A read subsumes the earlier reads that it cannot race with. */
  ghost function AfterRead(seen: Seen, tid: nat, cv: Clock): Seen {
    Seen(Racing(seen.readers, tid, cv) + Live(Own(tid, cv)), seen.writers)
  }

  /** A write subsumes everything. */
  ghost function AfterWrite(tid: nat, cv: Clock): Seen {
    Seen({}, Live(Own(tid, cv)))
  }

  ghost function RacesWith(stamps: set<Stamp>, wasWrite: bool, action: nat, isWrite: bool,
                           address: nat): set<DataRace> {
    set s | s in stamps :: DataRace(s, wasWrite, action, isWrite, address)
  }

  ghost function ReadRaces(seen: Seen, tid: nat, cv: Clock, action: nat, address: nat): set<DataRace> {
    RacesWith(Racing(seen.writers, tid, cv), true, action, false, address)
  }

  ghost function WriteRaces(seen: Seen, tid: nat, cv: Clock, action: nat, address: nat): set<DataRace> {
    RacesWith(Racing(seen.readers, tid, cv), false, action, true, address) +
    RacesWith(Racing(seen.writers, tid, cv), true, action, true, address)
  }

  /** The races reported since, without counting repetitions. */
  ghost predicate Reports(before: seq<DataRace>, after: seq<DataRace>, races: set<DataRace>) {
    before <= after && forall r :: r in after[|before|..] <==> r in races
  }

  lemma LiveMore(stamps: seq<Stamp>, s: Stamp, tid: nat, cv: Clock)
    requires MayRace(cv, tid, s)
    ensures LiveOf(stamps + [s]) == LiveOf(stamps) + {s}
  {
  }

  lemma LiveLast(stamps: seq<Stamp>, s: Stamp)
    ensures LiveOf(stamps + [s]) == LiveOf(stamps) + Live(s)
  {
  }

  lemma LiveNone()
    ensures LiveOf([]) == {}
  {
  }

  lemma LiveZero()
    ensures forall t :: Live(Stamp(t, 0)) == {}
  {
  }

  lemma KeptNone(tid: nat, cv: Clock)
    ensures LiveOf([]) == {} && Racing(LiveOf([]), tid, cv) == {}
  {
  }

  /** Only live stamps race. */
  lemma RacingMore(stamps: seq<Stamp>, s: Stamp, tid: nat, cv: Clock)
    ensures Racing(LiveOf(stamps + [s]), tid, cv) ==
            Racing(LiveOf(stamps), tid, cv) + if MayRace(cv, tid, s) then {s} else {}
  {
  }

  lemma RacingLive(s: Stamp, tid: nat, cv: Clock, wasWrite: bool, action: nat, isWrite: bool, address: nat)
    ensures RacesWith(Racing(Live(s), tid, cv), wasWrite, action, isWrite, address) ==
            if MayRace(cv, tid, s) then {DataRace(s, wasWrite, action, isWrite, address)} else {}
  {
    assert Racing(Live(s), tid, cv) == if MayRace(cv, tid, s) then {s} else {};
  }

  lemma RacesNone(wasWrite: bool, action: nat, isWrite: bool, address: nat)
    ensures RacesWith({}, wasWrite, action, isWrite, address) == {}
  {
  }

  lemma RacesMore(stamps: set<Stamp>, s: Stamp, wasWrite: bool, action: nat, isWrite: bool, address: nat)
    ensures RacesWith(stamps + {s}, wasWrite, action, isWrite, address) ==
            RacesWith(stamps, wasWrite, action, isWrite, address) + {DataRace(s, wasWrite, action, isWrite, address)}
    ensures stamps + {} == stamps
  {
  }

  lemma ReportsNone(before: seq<DataRace>)
    ensures Reports(before, before, {})
  {
  }

  lemma ReportsMore(before: seq<DataRace>, after: seq<DataRace>, races: set<DataRace>, r: DataRace)
    requires Reports(before, after, races)
    ensures Reports(before, after + [r], races + {r}) && Reports(before, after, races + {})
  {
    assert (after + [r])[|before|..] == after[|before|..] + [r];
    assert races + {} == races;
  }

  lemma ReportsSome(before: seq<DataRace>, after: seq<DataRace>, races: set<DataRace>)
    requires Reports(before, after, races)
    ensures |after| > |before| <==> races != {}
  {
    if |after| > |before| {
      assert after[|before|..][0] in races;
    } else {
      assert forall r :: r in races ==> r in after[|before|..];
    }
  }

  lemma ReportsTwice(before: seq<DataRace>, middle: seq<DataRace>, after: seq<DataRace>, races: set<DataRace>)
    requires Reports(before, middle, races) && Reports(middle, after, races)
    ensures Reports(before, after, races)
  {
    assert after[|before|..] == middle[|before|..] + after[|middle|..];
  }

  /** A clock that has grown by late synchronization leaves no new races. */
  lemma LaterClocksRaceLess(cv: Clock, later: Clock, tid: nat, s: Stamp)
    requires Le(cv, later) && MayRace(later, tid, s)
    ensures MayRace(cv, tid, s)
  {
  }
}
