/** The track writer of src/keyto.c: messages with running status, and a phrase merged with the
    note-offs of its notes. */
module Writing {
  import opened Bytes
  import opened Notes
  import opened Phrases
  import opened Varnums

  const NOTEOFF := 0x80
  const NOTEON := 0x90
  const SYSEX := 0xf0
  const ESCAPE := 0xf7
  const META := 0xff

  // ---------- How one message is written ----------

  /** The length that a channel message with this status byte has; 0 for other bytes. */
  function Expecting(status: int): nat {
    var high := status / 16;
    if high == 8 || high == 9 || high == 10 || high == 11 || high == 14 then 3
    else if high == 12 || high == 13 then 2
    else 0
  }

  predicate IsChannel(m: seq<int>) {
    m != [] && Expecting(m[0]) == |m|
  }

  /** A sysex in the form that keykit keeps meta events in. */
  predicate IsText(m: seq<int>) {
    |m| > 3 && m[0] == 0xf0 && m[1] == 0x00 && m[2] == 0x7f
  }

  /** The bytes for message m when `laststat` was the first byte of the one before. */
  function Encode(laststat: int, m: seq<int>, sysextype: bool): seq<int>
    requires m != []
  {
    if IsChannel(m) then (if m[0] == laststat then m[1..] else m)
    else if m[0] == SYSEX && sysextype then [SYSEX] + VarBytes(|m| - 1) + m[1..]
    else [ESCAPE] + VarBytes(|m|) + m
  }

  datatype Timed = Timed(time: int, message: seq<int>)

  ghost predicate Proper(m: seq<int>) {
    m != [] && (forall i :: 0 <= i < |m| ==> IsByte(m[i])) && !IsText(m)
  }

  function Delta(time: int, last: int): nat {
    if time < last then 0 else time - last
  }

  /** The track data of a list of timed messages. */
  function EncodeAll(laststat: int, last: int, events: seq<Timed>, sysextype: bool): seq<int>
    requires forall i :: 0 <= i < |events| ==> events[i].message != []
    decreases |events|
  {
    if events == [] then []
    else
      VarBytes(Delta(events[0].time, last)) + Encode(laststat, events[0].message, sysextype)
      + EncodeAll(events[0].message[0], events[0].time, events[1..], sysextype)
  }

  function LastStat(laststat: int, events: seq<Timed>): int
    requires forall i :: 0 <= i < |events| ==> events[i].message != []
  {
    if events == [] then laststat else events[|events| - 1].message[0]
  }

  function LastTime(last: int, events: seq<Timed>): int {
    if events == [] then last else events[|events| - 1].time
  }

  lemma {:induction false} EncodeNext(laststat: int, last: int, events: seq<Timed>, e: Timed, sysextype: bool)
    requires e.message != [] && forall i :: 0 <= i < |events| ==> events[i].message != []
    ensures EncodeAll(laststat, last, events + [e], sysextype) == EncodeAll(laststat, last, events, sysextype)
      + (VarBytes(Delta(e.time, LastTime(last, events))) + Encode(LastStat(laststat, events), e.message, sysextype))
    decreases |events|
  {
    hide Encode, VarBytes;
    if events == [] {
      assert [e][1..] == [] && events + [e] == [e];
    } else {
      var d := events[0];
      EncodeNext(d.message[0], d.time, events[1..], e, sysextype);
      assert (events + [e])[1..] == events[1..] + [e];
    }
  }

  // ---------- What phtrack writes when ----------

  /** The start of a note of the phrase, or the end of one that is pending. */
  datatype Emit = Start(note: Note) | Off(note: Note)

  /** The pending note-off of a note. */
  function OffOf(n: Note): Note {
    n.(clicks := n.clicks + n.duration, kind := NT_OFF)
  }

  ghost function AddPending(pend: seq<Note>, n: Note): seq<Note> {
    var k := Place(pend, OffOf(n));
    pend[..k] + [OffOf(n)] + pend[k..]
  }

  ghost function Schedule(notes: seq<Note>, pend: seq<Note>): seq<Emit>
    decreases 2 * |notes| + |pend|
  {
    if notes == [] && pend == [] then []
    else if notes == [] || (pend != [] && pend[0].clicks <= notes[0].clicks) then
      [Off(pend[0])] + Schedule(notes, pend[1..])
    else
      [Start(notes[0])] + Schedule(notes[1..], if notes[0].kind == NT_NOTE then AddPending(pend, notes[0]) else pend)
  }

  /** Notes sound for a time that is not negative. */
  ghost predicate Sounding(notes: seq<Note>) {
    forall i :: 0 <= i < |notes| ==> notes[i].kind == NT_NOTE ==> notes[i].duration >= 0
  }

  /** The starts in a schedule, in order. */
  ghost function Starts(s: seq<Emit>): seq<Note> {
    if s == [] then [] else (if s[0].Start? then [s[0].note] else []) + Starts(s[1..])
  }

  ghost function Offs(s: seq<Emit>): multiset<Note> {
    if s == [] then multiset{} else (if s[0].Off? then multiset{s[0].note} else multiset{}) + Offs(s[1..])
  }

  ghost function OffsOf(notes: seq<Note>): multiset<Note> {
    if notes == [] then multiset{}
      else (if notes[0].kind == NT_NOTE then multiset{OffOf(notes[0])} else multiset{}) + OffsOf(notes[1..])
  }

  /** Every note of the phrase is passed through once, in order. */
  lemma {:induction false} StartsAreNotes(notes: seq<Note>, pend: seq<Note>)
    ensures Starts(Schedule(notes, pend)) == notes
    decreases 2 * |notes| + |pend|
  {
    hide AddPending, OffOf;
    if notes == [] && pend == [] {
    } else if notes == [] || (pend != [] && pend[0].clicks <= notes[0].clicks) {
      StartsAreNotes(notes, pend[1..]);
      StartsOfFirst(Off(pend[0]), Schedule(notes, pend[1..]));
    } else {
      var p := if notes[0].kind == NT_NOTE then AddPending(pend, notes[0]) else pend;
      assert |p| <= |pend| + 1 by { AddedLength(pend, notes[0]); }
      StartsAreNotes(notes[1..], p);
      StartsOfFirst(Start(notes[0]), Schedule(notes[1..], p));
    }
  }

  lemma StartsOfFirst(e: Emit, s: seq<Emit>)
    ensures Starts([e] + s) == (if e.Start? then [e.note] else []) + Starts(s)
    ensures Offs([e] + s) == (if e.Off? then multiset{e.note} else multiset{}) + Offs(s)
  {
    assert ([e] + s)[1..] == s;
  }

  lemma AddedLength(pend: seq<Note>, n: Note)
    ensures |AddPending(pend, n)| == |pend| + 1
    ensures multiset(AddPending(pend, n)) == multiset(pend) + multiset{OffOf(n)}
  {
    hide OffOf;
    var k := Place(pend, OffOf(n));
    assert pend == pend[..k] + pend[k..];
  }

  lemma OffsOfFirst(notes: seq<Note>)
    ensures OffsOf(notes) == if notes == [] then multiset{}
      else (if notes[0].kind == NT_NOTE then multiset{OffOf(notes[0])} else multiset{}) + OffsOf(notes[1..])
  {
  }

  lemma BeforeInTime(a: Note, b: Note)
    requires Before(a, b)
    ensures a.clicks <= b.clicks
  {
    hide Detail;
    KeyCmp(a, if IsBytes(a) then [] else Detail(a), b, if IsBytes(b) then [] else Detail(b));
  }

  ghost predicate NotBefore(notes: seq<Note>, low: int) {
    forall i :: 0 <= i < |notes| ==> notes[i].clicks >= low
  }

  ghost predicate TimesRise(s: seq<Emit>, low: int) {
    && (forall i :: 0 <= i < |s| ==> s[i].note.clicks >= low)
    && forall i, j :: 0 <= i < j < |s| ==> s[i].note.clicks <= s[j].note.clicks
  }

  lemma OrderedTail(notes: seq<Note>)
    requires Ordered(notes) && notes != []
    ensures Ordered(notes[1..]) && NotBefore(notes, notes[0].clicks)
  {
    hide Before;
    forall i | 0 < i < |notes| ensures notes[i].clicks >= notes[0].clicks {
      BeforeInTime(notes[0], notes[i]);
    }
  }

  lemma AddedOrdered(pend: seq<Note>, n: Note, low: int)
    requires Ordered(pend) && NotBefore(pend, low) && n.clicks + n.duration >= low
    ensures Ordered(AddPending(pend, n)) && NotBefore(AddPending(pend, n), low)
  {
    hide Before, Ordered;
    PlaceIs(pend, OffOf(n));
    InsertOrdered(pend, OffOf(n), Place(pend, OffOf(n)));
  }

  lemma RiseFirst(e: Emit, s: seq<Emit>, low: int)
    requires TimesRise(s, e.note.clicks) && e.note.clicks >= low
    ensures TimesRise([e] + s, low)
  {
  }

  /** What is written is written in the order of time. */
  lemma {:induction false} ScheduleRises(notes: seq<Note>, pend: seq<Note>, low: int)
    requires Ordered(notes) && Sounding(notes) && Ordered(pend) && NotBefore(notes, low) && NotBefore(pend, low)
    ensures TimesRise(Schedule(notes, pend), low)
    decreases 2 * |notes| + |pend|
  {
    hide AddPending, OffOf, Ordered, TimesRise;
    if notes == [] && pend == [] {
      assert TimesRise([], low) by { NothingRises(low); }
    } else if notes == [] || (pend != [] && pend[0].clicks <= notes[0].clicks) {
      OrderedTail(pend);
      if notes != [] {
        OrderedTail(notes);
      }
      ScheduleRises(notes, pend[1..], pend[0].clicks);
      RiseFirst(Off(pend[0]), Schedule(notes, pend[1..]), low);
    } else {
      var n := notes[0];
      OrderedTail(notes);
      if pend != [] {
        OrderedTail(pend);
      }
      AddedLength(pend, n);
      if n.kind == NT_NOTE {
        AddedOrdered(pend, n, n.clicks);
      }
      var p := if n.kind == NT_NOTE then AddPending(pend, n) else pend;
      ScheduleRises(notes[1..], p, n.clicks);
      RiseFirst(Start(n), Schedule(notes[1..], p), low);
    }
  }

  lemma NothingRises(low: int)
    ensures TimesRise([], low)
  {
  }

  /** The note-off comes from a note that was pending or has been started before place j. */
  ghost predicate FromStart(s: seq<Emit>, j: nat, o: Note) {
    exists k :: 0 <= k < j && k < |s| && s[k].Start? && s[k].note.kind == NT_NOTE && o == OffOf(s[k].note)
  }

  lemma Regrouped(a: multiset<Note>, b: multiset<Note>, c: multiset<Note>)
    ensures a + (b + c) == a + b + c && multiset{} + c == c
  {
  }

  /** What is still to be ended does not change when a pending note-off is written... */
  lemma OffBalance(pend: seq<Note>, offs: multiset<Note>)
    requires pend != []
    ensures OffIn(Off(pend[0])) + (multiset(pend[1..]) + offs) == multiset(pend) + offs
  {
    assert pend == [pend[0]] + pend[1..];
    assert multiset(pend) == multiset{pend[0]} + multiset(pend[1..]);
    Regrouped(multiset{pend[0]}, multiset(pend[1..]), offs);
  }

  /** ... nor when a note is started. */
  lemma StartBalance(notes: seq<Note>, pend: seq<Note>)
    requires notes != []
    ensures var pend' := if notes[0].kind == NT_NOTE then AddPending(pend, notes[0]) else pend;
      multiset(pend') + OffsOf(notes[1..]) == multiset(pend) + OffsOf(notes)
  {
    hide AddPending, OffsOf, OffOf;
    OffsOfFirst(notes);
    AddedLength(pend, notes[0]);
    Regrouped(multiset(pend), multiset{OffOf(notes[0])}, OffsOf(notes[1..]));
    Regrouped(multiset(pend), multiset{}, OffsOf(notes[1..]));
  }

  /** The first thing written, and what is pending then. */
  lemma ScheduleFirst(notes: seq<Note>, pend: seq<Note>) returns (e: Emit, notes': seq<Note>, pend': seq<Note>)
    requires Schedule(notes, pend) != []
    ensures Schedule(notes, pend) == [e] + Schedule(notes', pend')
    ensures 2 * |notes'| + |pend'| < 2 * |notes| + |pend|
    ensures e.Off? ==> e.note in pend
    ensures forall x :: x in pend' ==> x in pend || (e.Start? && e.note.kind == NT_NOTE && x == OffOf(e.note))
    ensures OffIn(e) + (multiset(pend') + OffsOf(notes')) == multiset(pend) + OffsOf(notes)
  {
    hide AddPending, OffOf, OffsOf;
    if notes == [] || (pend != [] && pend[0].clicks <= notes[0].clicks) {
      e, notes', pend' := Off(pend[0]), notes, pend[1..];
      OffBalance(pend, OffsOf(notes));
    } else {
      AddedLength(pend, notes[0]);
      e, notes', pend' := Start(notes[0]), notes[1..], if notes[0].kind == NT_NOTE then AddPending(pend, notes[0]) else pend;
      AddedMembers(pend, notes[0]);
      StartBalance(notes, pend);
      Regrouped(multiset{}, multiset{}, multiset(pend') + OffsOf(notes'));
    }
  }

  ghost function OffIn(e: Emit): multiset<Note> {
    if e.Off? then multiset{e.note} else multiset{}
  }

  /** Each full note gets exactly one note-off, at its end. */
  lemma {:induction false} OffsAreEnds(notes: seq<Note>, pend: seq<Note>)
    ensures Offs(Schedule(notes, pend)) == multiset(pend) + OffsOf(notes)
    decreases 2 * |notes| + |pend|
  {
    hide Schedule, OffsOf, OffOf;
    if Schedule(notes, pend) == [] {
      NothingLeft(notes, pend);
    } else {
      var e, notes', pend' := ScheduleFirst(notes, pend);
      OffsAreEnds(notes', pend');
      StartsOfFirst(e, Schedule(notes', pend'));
    }
  }

  lemma NothingLeft(notes: seq<Note>, pend: seq<Note>)
    requires Schedule(notes, pend) == []
    ensures notes == [] && pend == [] && OffsOf(notes) == multiset{}
  {
  }

  lemma AddedMembers(pend: seq<Note>, n: Note)
    ensures forall x :: x in AddPending(pend, n) ==> x in pend || x == OffOf(n)
  {
    hide OffOf;
  }

  lemma FromStartLater(e: Emit, s: seq<Emit>, j: nat, o: Note)
    requires FromStart(s, j, o)
    ensures FromStart([e] + s, j + 1, o)
  {
    hide OffOf;
    var k :| 0 <= k < j && k < |s| && s[k].Start? && s[k].note.kind == NT_NOTE && o == OffOf(s[k].note);
    assert ([e] + s)[k + 1] == s[k];
  }

  lemma FromFirst(e: Emit, s: seq<Emit>, j: nat, o: Note)
    requires j > 0 && e.Start? && e.note.kind == NT_NOTE && o == OffOf(e.note)
    ensures FromStart([e] + s, j, o)
  {
    assert ([e] + s)[0] == e;
  }

  lemma {:induction false} OriginOfOff(notes: seq<Note>, pend: seq<Note>, j: nat)
    requires j < |Schedule(notes, pend)| && Schedule(notes, pend)[j].Off?
    ensures Schedule(notes, pend)[j].note in pend || FromStart(Schedule(notes, pend), j, Schedule(notes, pend)[j].note)
    decreases 2 * |notes| + |pend|
  {
    hide Schedule, OffOf, FromStart;
    var o := Schedule(notes, pend)[j].note;
    var e, notes', pend' := ScheduleFirst(notes, pend);
    if j > 0 {
      OriginOfOff(notes', pend', j - 1);
      if FromStart(Schedule(notes', pend'), j - 1, o) {
        FromStartLater(e, Schedule(notes', pend'), j - 1, o);
      } else if o !in pend {
        FromFirst(e, Schedule(notes', pend'), j, o);
      }
    }
  }

  /** The first thing written, and the state it leaves. */
  lemma ScheduleStep(notes: seq<Note>, pend: seq<Note>) returns (e: Emit, notes': seq<Note>, pend': seq<Note>)
    requires Ordered(notes) && Sounding(notes) && Ordered(pend) && Schedule(notes, pend) != []
    ensures Schedule(notes, pend) == [e] + Schedule(notes', pend')
    ensures 2 * |notes'| + |pend'| < 2 * |notes| + |pend|
    ensures Ordered(notes') && Sounding(notes') && Ordered(pend')
    ensures e.Start? ==> NotBefore(pend, e.note.clicks + 1)
  {
    hide AddPending, OffOf, Ordered;
    if notes == [] || (pend != [] && pend[0].clicks <= notes[0].clicks) {
      OrderedTail(pend);
      e, notes', pend' := Off(pend[0]), notes, pend[1..];
    } else {
      var n := notes[0];
      AddedLength(pend, n);
      OrderedTail(notes);
      LowestOf(pend, n);
      if pend != [] {
        OrderedTail(pend);
      }
      e, notes', pend' := Start(n), notes[1..], if n.kind == NT_NOTE then AddPending(pend, n) else pend;
    }
  }

  /** Note-offs come first: when a note starts, only notes that start with it or later can still
      end at or before that time. */
  lemma {:induction false} OffsComeFirst(notes: seq<Note>, pend: seq<Note>, i: nat, j: nat)
    requires Ordered(notes) && Sounding(notes) && Ordered(pend)
    requires i < j < |Schedule(notes, pend)| && Schedule(notes, pend)[i].Start? && Schedule(notes, pend)[j].Off?
    requires Schedule(notes, pend)[j].note.clicks <= Schedule(notes, pend)[i].note.clicks
    ensures FromStart(Schedule(notes, pend)[i..], j - i, Schedule(notes, pend)[j].note)
    decreases 2 * |notes| + |pend|
  {
    hide Schedule, Ordered, FromStart;
    var s := Schedule(notes, pend);
    var e, notes', pend' := ScheduleStep(notes, pend);
    if i == 0 {
      OriginOfOff(notes, pend, j);
      assert s[0..] == s;
    } else {
      OffsComeFirst(notes', pend', i - 1, j - 1);
      assert s[i..] == Schedule(notes', pend')[i - 1..];
    }
  }

  lemma LowestOf(pend: seq<Note>, n: Note)
    requires Ordered(pend)
    ensures Ordered(AddPending(pend, n))
  {
    hide Before, Ordered;
    PlaceIs(pend, OffOf(n));
    InsertOrdered(pend, OffOf(n), Place(pend, OffOf(n)));
  }
}
