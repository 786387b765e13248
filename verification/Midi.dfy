/** The MIDI tone generator's table of sounding notes, with its ageing and replacement. */
module Midi {
  import opened Bytes

  /** A slot of the note table; a pitch of 0 marks it free. */
  datatype Note = Note(age: byte, pitch: byte)

  datatype Event = NoteOn(channel: byte, pitch: byte) | NoteOff(channel: byte, pitch: byte) | Other

  predicate Free(n: Note) { n.pitch == 0 }

  // ---------------------------------------------------------------------------
  // Slots
  // ---------------------------------------------------------------------------

  /** The first free slot from `i` on, or the length of the table. */
  function FirstFree(s: seq<Note>, i: nat): (k: nat)
    requires i <= |s|
    ensures i <= k <= |s| && (forall j :: i <= j < k ==> !Free(s[j])) && (k < |s| ==> Free(s[k]))
    decreases |s| - i
  {
    if i == |s| || Free(s[i]) then i else FirstFree(s, i + 1)
  }

  function Aged(n: Note): Note { n.(age := Wrap8(n.age + 1)) }

  /** The candidate for replacement after the first `n` slots have been looked at and aged. */
  function Candidate(s: seq<Note>, n: nat): (k: nat)
    requires n <= |s| && s != []
    ensures k < |s| && (n > 0 ==> k < n) && (n == 0 ==> k == 0)
    decreases n
  {
    if n == 0 then 0
    else
      var before := Candidate(s, n - 1);
      var against := if before < n - 1 then Aged(s[before]) else s[before];
      if s[n - 1].age >= against.age then n - 1 else before
  }

  /** The table with its first `n` slots aged. */
  function AgeFirst(s: seq<Note>, n: nat): (r: seq<Note>)
    requires n <= |s|
    ensures |r| == |s|
  {
    seq<Note>(|s|, i requires 0 <= i < |s| => if i < n then Aged(s[i]) else s[i])
  }

  /** The slot a new note takes: the first free one, or else the last candidate. */
  function Chosen(s: seq<Note>): (k: nat)
    requires s != []
    ensures k < |s|
  {
    var free := FirstFree(s, 0);
    if free < |s| then free else Candidate(s, |s|)
  }

  function TurnOn(s: seq<Note>, pitch: byte): (r: seq<Note>)
    requires s != []
    ensures |r| == |s|
  {
    AgeFirst(s, FirstFree(s, 0))[Chosen(s) := Note(0, pitch)]
  }

  function TurnOff(s: seq<Note>, pitch: byte): (r: seq<Note>)
    ensures |r| == |s|
  {
    seq<Note>(|s|, i requires 0 <= i < |s| => if s[i].pitch == pitch then s[i].(pitch := 0) else s[i])
  }

  function Step(s: seq<Note>, e: Event): (r: seq<Note>)
    requires s != []
    ensures |r| == |s|
  {
    match e
    case NoteOn(channel, pitch) => if channel % 0x10 == 0 then TurnOn(s, pitch) else s
    case NoteOff(channel, pitch) => if channel % 0x10 == 0 then TurnOff(s, pitch) else s
    case Other => s
  }

  // ---------------------------------------------------------------------------
  // Which note is replaced
  // ---------------------------------------------------------------------------

  /** No earlier slot is as old as slot `k`, and no later one is older. */
  ghost predicate FirstOldest(s: seq<Note>, n: nat, k: nat)
    requires n <= |s|
  {
    && k < n
    && (forall j :: 0 <= j < k ==> s[j].age < s[k].age)
    && (forall j :: k <= j < n ==> s[j].age <= s[k].age)
  }

  /** While no age has wrapped, comparing against aged slots keeps the first oldest one. */
  lemma {:induction false} CandidateIsFirstOldest(s: seq<Note>, n: nat)
    requires 0 < n <= |s| && forall j :: 0 <= j < n - 1 ==> s[j].age < 0xFF
    ensures FirstOldest(s, n, Candidate(s, n))
    decreases n
  {
    if n > 1 {
      CandidateIsFirstOldest(s, n - 1);
    }
  }

  /** A slot that has wrapped to 0 gives way to the next slot, however young that is. */
  lemma WrappedGivesWay(s: seq<Note>, n: nat)
    requires 0 < n < |s| && s[Candidate(s, n)].age == 0xFF
    ensures Candidate(s, n + 1) == n
  {
  }

  /** The oldest age is always the candidate's, up to the slot that reaches 255. */
  lemma AgeLimitTakes(s: seq<Note>, n: nat)
    requires 0 < n <= |s| && s[n - 1].age == 0xFF
    ensures Candidate(s, n) == n - 1
  {
  }

  /** Past a slot aged 255 the candidate is never that slot nor an earlier one. */
  lemma {:induction false} CandidatePast(s: seq<Note>, m: nat, n: nat)
    requires m < n < |s| && s[m].age == 0xFF
    ensures Candidate(s, n + 1) > m
    decreases n
  {
    AgeLimitTakes(s, m + 1);
    if n == m + 1 {
      WrappedGivesWay(s, m + 1);
    } else {
      CandidatePast(s, m, n - 1);
    }
  }

  /**
   * With every slot sounding, a new note replaces the first slot of greatest age exactly
   * when no slot but the last has reached the age of 255.
   */
  lemma ReplacesFirstOldest(s: seq<Note>)
    requires s != [] && forall j :: 0 <= j < |s| ==> !Free(s[j])
    ensures FirstOldest(s, |s|, Chosen(s)) <==> forall j :: 0 <= j < |s| - 1 ==> s[j].age < 0xFF
  {
    assert FirstFree(s, 0) == |s|;
    if j :| 0 <= j < |s| - 1 && s[j].age >= 0xFF {
      CandidatePast(s, j, |s| - 1);
      assert s[j].age >= s[Candidate(s, |s|)].age;
    } else {
      CandidateIsFirstOldest(s, |s|);
    }
  }

  // ---------------------------------------------------------------------------
  // The notes that sound
  // ---------------------------------------------------------------------------

  function Single(n: Note): multiset<byte> { if Free(n) then multiset{} else multiset{n.pitch} }

  /** The pitches of the slots in use. */
  function Sounding(s: seq<Note>): multiset<byte> {
    if s == [] then multiset{} else Single(s[0]) + Sounding(s[1..])
  }

  lemma {:induction false} SoundingUpdate(s: seq<Note>, k: nat, n: Note)
    requires k < |s|
    ensures Single(s[k]) <= Sounding(s)
    ensures Sounding(s[k := n]) == Sounding(s) - Single(s[k]) + Single(n)
    decreases |s|
  {
    if k == 0 {
      assert s[k := n][1..] == s[1..];
    } else {
      assert s[k := n][1..] == s[1..][k - 1 := n];
      SoundingUpdate(s[1..], k - 1, n);
    }
  }

  /** Ageing changes no pitch. */
  lemma {:induction false} SoundingSamePitches(s: seq<Note>, r: seq<Note>)
    requires |s| == |r| && forall i :: 0 <= i < |s| ==> s[i].pitch == r[i].pitch
    ensures Sounding(s) == Sounding(r)
    decreases |s|
  {
    if s != [] {
      SoundingSamePitches(s[1..], r[1..]);
    }
  }

  /** There is a free slot exactly when fewer notes sound than there are slots. */
  lemma {:induction false} FreeSlotCount(s: seq<Note>)
    ensures |Sounding(s)| <= |s|
    ensures |Sounding(s)| < |s| <==> exists i :: 0 <= i < |s| && Free(s[i])
    decreases |s|
  {
    if s != [] {
      var rest := s[1..];
      FreeSlotCount(rest);
      assert |Sounding(s)| == |Single(s[0])| + |Sounding(rest)|;
      if i :| 0 <= i < |rest| && Free(rest[i]) {
        assert Free(s[i + 1]);
      }
      if i :| 0 <= i < |s| && Free(s[i]) {
        assert i > 0 ==> Free(rest[i - 1]);
      }
    }
  }

  /** A new note adds its pitch and, only if every slot sounds, takes away one other. */
  lemma TurnOnSounds(s: seq<Note>, pitch: byte)
    requires s != [] && pitch != 0
    ensures |Sounding(s)| < |s| ==> Sounding(TurnOn(s, pitch)) == Sounding(s) + multiset{pitch}
    ensures |Sounding(s)| == |s| ==>
            var victim := s[Chosen(s)].pitch;
            victim in Sounding(s) && Sounding(TurnOn(s, pitch)) == Sounding(s) - multiset{victim} + multiset{pitch}
  {
    hide Sounding, Chosen;
    var aged, k := AgeFirst(s, FirstFree(s, 0)), Chosen(s);
    SoundingSamePitches(s, aged);
    SoundingUpdate(aged, k, Note(0, pitch));
    FreeSlotCount(s);
    if |Sounding(s)| < |s| {
      assert Free(s[k]) by { FreeChosen(s); }
    } else {
      assert !Free(s[k]);
    }
  }

  lemma FreeChosen(s: seq<Note>)
    requires exists i :: 0 <= i < |s| && Free(s[i])
    ensures Free(s[Chosen(s)])
  {
    var i :| 0 <= i < |s| && Free(s[i]);
    assert FirstFree(s, 0) <= i;
  }

  /** Turning a note off silences every copy of its pitch and no other note. */
  lemma {:induction false} TurnOffSounds(s: seq<Note>, pitch: byte)
    ensures Sounding(TurnOff(s, pitch)) == Sounding(s)[pitch := 0]
    decreases |s|
  {
    if s != [] {
      assert TurnOff(s, pitch)[1..] == TurnOff(s[1..], pitch);
      TurnOffSounds(s[1..], pitch);
    }
  }

  // ---------------------------------------------------------------------------
  // Whole runs
  // ---------------------------------------------------------------------------

  function Run(s: seq<Note>, events: seq<Event>): (r: seq<Note>)
    requires s != []
    ensures |r| == |s|
    decreases |events|
  {
    if events == [] then s else Step(Run(s, events[..|events| - 1]), events[|events| - 1])
  }

  /**
   * How an event changes what sounds. With every slot in use the note of the chosen slot
   * goes, and that is the first of the oldest exactly when no slot but the last is 255 old.
   */
  ghost predicate Plays(before: seq<Note>, e: Event, after: seq<Note>)
    requires before != []
  {
    match e
    case NoteOn(channel, pitch) =>
      if channel % 0x10 != 0 then after == before
      else if |Sounding(before)| < |before| then Sounding(after) == Sounding(before) + multiset{pitch}
      else
        var k := Chosen(before);
        && before[k].pitch in Sounding(before)
        && Sounding(after) == Sounding(before) - multiset{before[k].pitch} + multiset{pitch}
        && (FirstOldest(before, |before|, k) <==> forall j :: 0 <= j < |before| - 1 ==> before[j].age < 0xFF)
    case NoteOff(channel, pitch) =>
      if channel % 0x10 == 0 then Sounding(after) == Sounding(before)[pitch := 0] else after == before
    case Other => after == before
  }

  /** Over every run each event changes the sounding notes as it should. */
  lemma {:induction false} VoicesPlay(s: seq<Note>, events: seq<Event>, i: nat)
    requires s != [] && i < |events|
    requires forall j :: 0 <= j < |events| && events[j].NoteOn? ==> events[j].pitch != 0
    ensures Plays(Run(s, events[..i]), events[i], Run(s, events[..i + 1]))
  {
    hide Sounding, TurnOn, TurnOff, FirstOldest, Chosen;
    var before := Run(s, events[..i]);
    assert events[..i + 1][..i] == events[..i];
    assert Run(s, events[..i + 1]) == Step(before, events[i]);
    FreeSlotCount(before);
    match events[i] {
      case NoteOn(_, pitch) =>
        TurnOnSounds(before, pitch);
        if |Sounding(before)| == |before| {
          ReplacesFirstOldest(before);
        }
      case NoteOff(_, pitch) => TurnOffSounds(before, pitch);
      case Other =>
    }
  }

  // ---------------------------------------------------------------------------
  // Ages in terms of the events
  // ---------------------------------------------------------------------------

  /** The note-on is for the generator's channel. */
  predicate IsOn(e: Event) { e.NoteOn? && e.channel % 0x10 == 0 }

  /** Note-ons since the slot last took a note whose search for a slot passed it. */
  function Passes(s: seq<Note>, events: seq<Event>, k: nat): nat
    requires s != [] && k < |s|
    decreases |events|
  {
    if events == [] then 0
    else
      var front, last := events[..|events| - 1], events[|events| - 1];
      var before := Run(s, front);
      if !IsOn(last) then Passes(s, front, k)
      else if Chosen(before) == k then 0
      else Passes(s, front, k) + (if k < FirstFree(before, 0) then 1 else 0)
  }

  /** From fresh slots, an age is the number of passes since the slot took its note, mod 256. */
  lemma {:induction false} AgeCountsPasses(s: seq<Note>, events: seq<Event>, k: nat)
    requires s != [] && k < |s| && forall j :: 0 <= j < |s| ==> s[j].age == 0
    ensures Run(s, events)[k].age == Passes(s, events, k) % 0x100
    decreases |events|
  {
    if events != [] {
      hide Chosen, FirstFree;
      AgeCountsPasses(s, events[..|events| - 1], k);
    }
  }

  /** The slot has been passed most often since it took its note, and is the first such. */
  ghost predicate FirstMostPassed(s: seq<Note>, events: seq<Event>, k: nat)
    requires s != [] && k < |s|
  {
    && (forall j :: 0 <= j < k ==> Passes(s, events, j) < Passes(s, events, k))
    && (forall j :: k <= j < |s| ==> Passes(s, events, j) <= Passes(s, events, k))
  }

  /**
   * As long as no slot has been passed 255 times, a note-on with all slots sounding removes
   * the note that has been passed most often since its own note-on.
   */
  lemma ReplacesMostPassed(s: seq<Note>, events: seq<Event>, channel: byte, pitch: byte)
    requires s != [] && forall j :: 0 <= j < |s| ==> s[j].age == 0
    requires |Sounding(Run(s, events))| == |s| && channel % 0x10 == 0 && pitch != 0
    requires forall j :: 0 <= j < |s| ==> Passes(s, events, j) < 0xFF
    ensures var before, after := Run(s, events), Run(s, events + [NoteOn(channel, pitch)]);
      var k := Chosen(before);
      && FirstMostPassed(s, events, k)
      && Sounding(after) == Sounding(before) - multiset{before[k].pitch} + multiset{pitch}
      && Passes(s, events + [NoteOn(channel, pitch)], k) == 0 && after[k] == Note(0, pitch)
  {
    hide Chosen, Sounding, Passes;
    var before := Run(s, events);
    FreeSlotCount(before);
    forall j | 0 <= j < |s|
      ensures before[j].age == Passes(s, events, j)
    {
      AgeCountsPasses(s, events, j);
    }
    ReplacesFirstOldest(before);
    RunPush(s, events, NoteOn(channel, pitch));
    TurnOnSounds(before, pitch);
    PassesRestart(s, events, NoteOn(channel, pitch));
  }

  lemma PassesRestart(s: seq<Note>, events: seq<Event>, e: Event)
    requires s != [] && IsOn(e)
    ensures Passes(s, events + [e], Chosen(Run(s, events))) == 0
  {
    assert (events + [e])[..|events|] == events;
  }

  /** Five notes on three slots: the fourth replaces the first, the fifth the second. */
  lemma FiveNotes()
    ensures var on := (pitch: byte) => NoteOn(0, pitch);
      Run(SILENT, [on(60), on(62), on(64), on(65), on(67)]) == [Note(1, 65), Note(0, 67), Note(2, 64)]
  {
    hide Run, TurnOn;
    var a: seq<Event> := [NoteOn(0, 60)];
    var b, c := a + [NoteOn(0, 62)], a + [NoteOn(0, 62)] + [NoteOn(0, 64)];
    var d := c + [NoteOn(0, 65)];
    RunNoEvents(SILENT);
    RunPush(SILENT, [], NoteOn(0, 60));
    RunPush(SILENT, a, NoteOn(0, 62));
    RunPush(SILENT, b, NoteOn(0, 64));
    RunPush(SILENT, c, NoteOn(0, 65));
    RunPush(SILENT, d, NoteOn(0, 67));
    assert [] + [NoteOn(0, 60)] == a;
    assert d + [NoteOn(0, 67)] == [NoteOn(0, 60), NoteOn(0, 62), NoteOn(0, 64), NoteOn(0, 65), NoteOn(0, 67)];
    ThreeFill();
    TwoReplace();
  }

  lemma ThreeFill()
    ensures TurnOn(SILENT, 60) == [Note(0, 60), Note(0, 0), Note(0, 0)]
    ensures TurnOn([Note(0, 60), Note(0, 0), Note(0, 0)], 62) == [Note(1, 60), Note(0, 62), Note(0, 0)]
    ensures TurnOn([Note(1, 60), Note(0, 62), Note(0, 0)], 64) == [Note(2, 60), Note(1, 62), Note(0, 64)]
  {
    var a: seq<Note> := [Note(0, 60), Note(0, 0), Note(0, 0)];
    var b: seq<Note> := [Note(1, 60), Note(0, 62), Note(0, 0)];
    assert FirstFree(SILENT, 0) == 0;
    assert FirstFree(a, 0) == FirstFree(a, 1) == 1;
    assert FirstFree(b, 0) == FirstFree(b, 1) == FirstFree(b, 2) == 2;
  }

  lemma TwoReplace()
    ensures TurnOn([Note(2, 60), Note(1, 62), Note(0, 64)], 65) == [Note(0, 65), Note(2, 62), Note(1, 64)]
    ensures TurnOn([Note(0, 65), Note(2, 62), Note(1, 64)], 67) == [Note(1, 65), Note(0, 67), Note(2, 64)]
  {
    var c: seq<Note> := [Note(2, 60), Note(1, 62), Note(0, 64)];
    var d: seq<Note> := [Note(0, 65), Note(2, 62), Note(1, 64)];
    assert FirstFree(c, 0) == FirstFree(c, 1) == FirstFree(c, 2) == FirstFree(c, 3) == 3;
    assert FirstFree(d, 0) == FirstFree(d, 1) == FirstFree(d, 2) == FirstFree(d, 3) == 3;
    assert Candidate(c, 1) == 0 && Candidate(c, 2) == 0 && Candidate(c, 3) == 0;
    assert Candidate(d, 1) == 0 && Candidate(d, 2) == 1 && Candidate(d, 3) == 1;
  }

  /** The firmware's table with nothing sounding. */
  const SILENT: seq<Note> := [Note(0, 0), Note(0, 0), Note(0, 0)]

  /** A second note played and released `k` times. */
  function Repeated(k: nat): seq<Event> {
    if k == 0 then [] else Repeated(k - 1) + [NoteOn(0, 62), NoteOff(0, 62)]
  }

  lemma RunPush(s: seq<Note>, events: seq<Event>, e: Event)
    requires s != []
    ensures Run(s, events + [e]) == Step(Run(s, events), e)
  {
    assert (events + [e])[..|events|] == events;
  }

  /** The held note ages by one with each repetition. */
  lemma {:induction false} HeldNoteAges(k: nat)
    requires k <= 0xFF
    ensures Run(SILENT, [NoteOn(0, 60)] + Repeated(k)) == [Note(k, 60), Note(0, 0), Note(0, 0)]
    decreases k
  {
    hide Run;
    var first: seq<Event> := [NoteOn(0, 60)];
    if k == 0 {
      RunPush(SILENT, [], NoteOn(0, 60));
      RunNoEvents(SILENT);
      assert [] + first == first && first + Repeated(0) == first;
      assert FirstFree(SILENT, 0) == 0;
    } else {
      HeldNoteAges(k - 1);
      var events := first + Repeated(k - 1);
      assert first + Repeated(k) == (events + [NoteOn(0, 62)]) + [NoteOff(0, 62)];
      RunPush(SILENT, events, NoteOn(0, 62));
      RunPush(SILENT, events + [NoteOn(0, 62)], NoteOff(0, 62));
      HeldNoteStep(k);
    }
  }

  lemma RunNoEvents(s: seq<Note>)
    requires s != []
    ensures Run(s, []) == s
  {
  }

  lemma HeldNoteStep(k: nat)
    requires 0 < k <= 0xFF
    ensures TurnOff(TurnOn([Note(k - 1, 60), Note(0, 0), Note(0, 0)], 62), 62) == [Note(k, 60), Note(0, 0), Note(0, 0)]
  {
    var s := [Note(k - 1, 60), Note(0, 0), Note(0, 0)];
    assert FirstFree(s, 0) == FirstFree(s, 1) == 1;
    assert TurnOn(s, 62) == [Note(k, 60), Note(0, 62), Note(0, 0)];
  }

  /**
   * A note held while another is played 253 times, then two more: the held note is the
   * oldest, but its age wraps in the search and the next note replaces the second one.
   */
  lemma WrappedAgeReplacesYounger()
    ensures var s := Run(SILENT, [NoteOn(0, 60)] + Repeated(253) + [NoteOn(0, 62)] + [NoteOn(0, 64)]);
      && s == [Note(0xFF, 60), Note(1, 62), Note(0, 64)]
      && FirstOldest(s, 3, 0) && Chosen(s) == 1
  {
    hide Run, Repeated, TurnOn, Chosen, FirstOldest;
    var events := [NoteOn(0, 60)] + Repeated(253);
    HeldNoteAges(253);
    RunPush(SILENT, events, NoteOn(0, 62));
    RunPush(SILENT, events + [NoteOn(0, 62)], NoteOn(0, 64));
    TwoMoreNotes();
    ThirdReplaced();
  }

  lemma TwoMoreNotes()
    ensures TurnOn([Note(253, 60), Note(0, 0), Note(0, 0)], 62) == [Note(254, 60), Note(0, 62), Note(0, 0)]
    ensures TurnOn([Note(254, 60), Note(0, 62), Note(0, 0)], 64) == [Note(0xFF, 60), Note(1, 62), Note(0, 64)]
  {
    var a: seq<Note> := [Note(253, 60), Note(0, 0), Note(0, 0)];
    var b: seq<Note> := [Note(254, 60), Note(0, 62), Note(0, 0)];
    assert FirstFree(a, 0) == FirstFree(a, 1) == 1;
    assert FirstFree(b, 0) == FirstFree(b, 1) == FirstFree(b, 2) == 2;
  }

  lemma ThirdReplaced()
    ensures var s: seq<Note> := [Note(0xFF, 60), Note(1, 62), Note(0, 64)];
      FirstOldest(s, 3, 0) && Chosen(s) == 1
  {
    var s: seq<Note> := [Note(0xFF, 60), Note(1, 62), Note(0, 64)];
    assert FirstFree(s, 0) == FirstFree(s, 1) == FirstFree(s, 2) == FirstFree(s, 3) == 3;
    AgeLimitTakes(s, 1);
    WrappedGivesWay(s, 1);
    assert Candidate(s, 3) == 1;
  }

  // ---------------------------------------------------------------------------
  // The table updated in place
  // ---------------------------------------------------------------------------

  class ToneGenerator {
    const notes: array<Note>

    constructor (slots: nat)
      requires 0 < slots < 0x100
      ensures fresh(notes) && notes.Length == slots && Sounding(notes[..]) == multiset{}
    {
      notes := new Note[slots](_ => Note(0, 0));
      new;
      assert forall i :: 0 <= i < slots ==> notes[..][i] == Note(0, 0);
      Silence(notes[..]);
    }

    /** Ages slots until a free one is found; returns the slot to use. */
    method FindSlot() returns (slot: nat)
      requires notes.Length > 0
      modifies notes
      ensures slot == Chosen(old(notes[..])) && notes[..] == AgeFirst(old(notes[..]), FirstFree(old(notes[..]), 0))
    {
      ghost var s := notes[..];
      slot := 0;
      var i := 0;
      while i < notes.Length
        invariant 0 <= i <= notes.Length && FirstFree(s, 0) >= i && slot == Candidate(s, i)
        invariant notes[..] == AgeFirst(s, i)
      {
        assert notes[i] == s[i] && notes[slot] == (if slot < i then Aged(s[slot]) else s[slot]);
        if notes[i].pitch == 0 {
          slot := i;
          return;
        } else if notes[i].age >= notes[slot].age {
          slot := i;
        }
        notes[i] := Aged(notes[i]);
        i := i + 1;
      }
    }

    method TurnNoteOn(pitch: byte)
      requires notes.Length > 0
      modifies notes
      ensures notes[..] == TurnOn(old(notes[..]), pitch)
    {
      var slot := FindSlot();
      notes[slot] := Note(0, pitch);
    }

    method TurnNoteOff(pitch: byte)
      modifies notes
      ensures notes[..] == TurnOff(old(notes[..]), pitch)
    {
      var i := 0;
      while i < notes.Length
        invariant 0 <= i <= notes.Length
        invariant forall j :: 0 <= j < i ==> notes[j] == TurnOff(old(notes[..]), pitch)[j]
        invariant forall j :: i <= j < notes.Length ==> notes[j] == old(notes[j])
      {
        if notes[i].pitch == pitch {
          notes[i] := notes[i].(pitch := 0);
        }
        i := i + 1;
      }
    }

    method Receive(e: Event)
      requires notes.Length > 0
      modifies notes
      ensures notes[..] == Step(old(notes[..]), e)
    {
      match e {
        case NoteOn(channel, pitch) =>
          if channel % 0x10 == 0 {
            TurnNoteOn(pitch);
          }
        case NoteOff(channel, pitch) =>
          if channel % 0x10 == 0 {
            TurnNoteOff(pitch);
          }
        case Other =>
      }
    }
  }

  lemma {:induction false} Silence(s: seq<Note>)
    requires forall i :: 0 <= i < |s| ==> Free(s[i])
    ensures Sounding(s) == multiset{}
    decreases |s|
  {
    if s != [] {
      Silence(s[1..]);
    }
  }
}
