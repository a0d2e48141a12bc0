/** The static state of src/keyto.c as one object: the track written so far, the last status byte
    and the pending note-offs. */
module TrackWriting {
  import opened Bytes
  import opened Notes
  import opened Phrases
  import opened Varnums
  import opened Writing

  ghost predicate Messages(events: seq<Timed>) {
    forall i :: 0 <= i < |events| ==> events[i].message != []
  }

  /** The message written for a start or for a pending note-off. */
  function MessageOf(e: Emit, noteoff: bool): seq<int> {
    var n := e.note;
    if e.Off? then [(if noteoff then NOTEOFF else NOTEON) + ChanOf(n), n.pitch % 256, 0]
    else if IsBytes(n) then n.bytes
    else [(if n.kind == NT_OFF then NOTEOFF else NOTEON) + ChanOf(n), n.pitch % 256, n.vol % 256]
  }

  function TimedOf(e: Emit, noteoff: bool): Timed {
    Timed(e.note.clicks, MessageOf(e, noteoff))
  }

  function AllTimed(log: seq<Emit>, noteoff: bool): (r: seq<Timed>)
    ensures |r| == |log|
  {
    seq(|log|, i requires 0 <= i < |log| => TimedOf(log[i], noteoff))
  }

  /** Byte messages are not empty, and hold bytes; text messages, which stand for meta events, are
      not part of this model. */
  ghost predicate Writable(notes: seq<Note>) {
    forall i :: 0 <= i < |notes| && IsBytes(notes[i]) ==> Proper(notes[i].bytes)
  }

  /** The end-of-track meta event, at the length of the phrase or after its last event. */
  function EndOfTrack(toend: nat): seq<int> {
    VarBytes(toend) + [META, 0x2f, 0x00]
  }

  class TrackWriter {
    var trktmp: seq<int>
    var trksize: nat
    var laststat: int
    var pend: seq<Note>
    /** *Mfsysextype and *Midifilenoteoff. */
    const sysextype: bool
    const noteoff: bool

    constructor (sysextype: bool, noteoff: bool)
      ensures this.sysextype == sysextype && this.noteoff == noteoff
      ensures trktmp == [] && trksize == 0 && laststat == -1 && pend == []
    {
      this.sysextype, this.noteoff := sysextype, noteoff;
      trktmp, trksize, laststat, pend := [], 0, -1, [];
    }

    method TrackByte(c: int)
      modifies this`trktmp, this`trksize
      ensures trktmp == old(trktmp) + [c % 256] && trksize == old(trksize) + 1
    {
      trktmp := trktmp + [c % 256];
      trksize := trksize + 1;
    }

    method TrackBytes(b: seq<int>, start: nat, lng: nat)
      requires start + lng == |b| && forall i :: 0 <= i < |b| ==> IsByte(b[i])
      modifies this`trktmp, this`trksize
      ensures trktmp == old(trktmp) + b[start..] && trksize == old(trksize) + lng
    {
      for n := start to |b|
        invariant trktmp == old(trktmp) + b[start..n] && trksize == old(trksize) + (n - start)
      {
        assert b[start..n + 1] == b[start..n] + [b[n]];
        TrackByte(b[n]);
      }
    }

    /** writevarinum */
    method WriteVarinum(value: nat)
      modifies this`trktmp, this`trksize
      ensures trktmp == old(trktmp) + VarBytes(value) && trksize == old(trksize) + |VarBytes(value)|
    {
      var buffer := new int[8](_ => 0);
      var bi: int := FillBuffer(value, buffer);
      hide VarBytes;
      ghost var bytes, n, groups := VarBytes(value), bi, buffer[..];
      while bi >= 0
        invariant -1 <= bi <= n && buffer[..] == groups
        invariant trktmp == old(trktmp) + bytes[..n - bi] && trksize == old(trksize) + (n - bi)
      {
        assert buffer[bi] == groups[bi] == bytes[n - bi];
        VarAreBytes(value);
        assert bytes[..n - bi + 1] == bytes[..n - bi] + [buffer[bi]];
        TrackByte(buffer[bi]);
        bi := bi - 1;
      }
      assert bytes[..n + 1] == bytes;
    }

    /** The groups of seven bits, the lowest first. */
    static method FillBuffer(v: nat, buffer: array<int>) returns (bi: nat)
      requires buffer.Length == 8
      modifies buffer
      ensures bi < 8 && |VarBytes(v)| == bi + 1 && forall i :: 0 <= i <= bi ==> buffer[i] == VarBytes(v)[bi - i]
    {
      bi := 0;
      buffer[0] := v % 128;
      var value: nat := v / 128;
      while value > 0 && bi < 7
        invariant 0 <= bi <= 7
        invariant VarBytes(v) == Top(value, 7 - bi) + Reversed(buffer[..bi + 1])
      {
        bi := bi + 1;
        ghost var before := buffer[..bi];
        buffer[bi] := 128 + value % 128;
        assert buffer[..bi + 1] == before + [128 + value % 128];
        value := value / 128;
      }
      assert VarBytes(v) == Reversed(buffer[..bi + 1]);
    }

    /** putdelta, with a click factor of 1. */
    method PutDelta(clicks: int)
      modifies this`trktmp, this`trksize
      ensures trktmp == old(trktmp) + VarBytes(if clicks < 0 then 0 else clicks)
      ensures trksize == old(trksize) + |VarBytes(if clicks < 0 then 0 else clicks)|
    {
      WriteVarinum(if clicks < 0 then 0 else clicks);
    }

    /** putnote, for a status byte that calls for two data bytes. */
    method PutNote(c: int, p: nat, v: nat)
      requires IsByte(c) && Expecting(c) == 3
      modifies this`trktmp, this`trksize, this`laststat
      ensures trktmp == old(trktmp) + Encode(old(laststat), [c, p % 256, v % 256], sysextype) && laststat == c
      ensures trksize == old(trksize) + |Encode(old(laststat), [c, p % 256, v % 256], sysextype)|
    {
      if c != laststat {
        laststat := c;
        TrackByte(c);
      }
      TrackByte(p);
      TrackByte(v);
      assert [c, p % 256, v % 256][1..] == [p % 256, v % 256];
    }

    /** putbytes */
    method PutBytes(b: seq<int>)
      requires Proper(b)
      modifies this`trktmp, this`trksize, this`laststat
      ensures trktmp == old(trktmp) + Encode(old(laststat), b, sysextype) && laststat == b[0]
      ensures trksize == old(trksize) + |Encode(old(laststat), b, sysextype)|
    {
      hide VarBytes, Encode, Proper;
      EncodeCases(laststat, b, sysextype);
      var b1, lng, expecting := b[0], |b|, Expecting(b[0]);
      if expecting != 0 && expecting == lng {
        if b1 != laststat {
          TrackByte(b1);
        }
        TrackByte(b[1]);
        if expecting > 2 {
          TrackByte(b[2]);
        }
        assert b[1..] == if expecting > 2 then [b[1], b[2]] else [b[1]];
      } else if b1 == SYSEX && sysextype {
        TrackByte(SYSEX);
        WriteVarinum(lng - 1);
        TrackBytes(b, 1, lng - 1);
      } else {
        TrackByte(ESCAPE);
        WriteVarinum(lng);
        TrackBytes(b, 0, lng);
        assert b[0..] == b;
      }
      laststat := b1;
    }

    /** addpend: an insertion into the sorted list of pending note-offs. */
    method AddPend(n: Note)
      requires n.kind == NT_NOTE
      modifies this`pend
      ensures pend == AddPending(old(pend), n)
    {
      hide Before;
      var newp := OffOf(n);
      var k := 0;
      while k < |pend|
        invariant pend == old(pend) && 0 <= k <= |pend| && forall i :: 0 <= i < k ==> Before(pend[i], newp)
      {
        var c := NtCmpOrder(pend[k], newp);
        OrderMeans(pend[k], newp);
        if c > 0 {
          break;
        }
        k := k + 1;
      }
      PlaceIs(pend, newp);
      PlaceUnique(pend, newp, k, Place(pend, newp));
      pend := pend[..k] + [newp] + pend[k..];
    }

    /** What the track holds after `log`, when it held `start` before. */
    ghost predicate Written(start: seq<int>, L: int, log: seq<Emit>, lasttime: int)
      reads this
    {
      && Messages(AllTimed(log, noteoff))
      && trktmp == start + EncodeAll(L, 0, AllTimed(log, noteoff), sysextype)
      && laststat == LastStat(L, AllTimed(log, noteoff)) && lasttime == LastTime(0, AllTimed(log, noteoff))
    }

    /** Puts out the top pending note-off. */
    method WriteOff(ghost start: seq<int>, ghost L: int, ghost log: seq<Emit>, lasttime: int)
      requires pend != [] && Written(start, L, log, lasttime)
      modifies this
      ensures pend == old(pend)[1..] && Written(start, L, log + [Off(old(pend)[0])], old(pend)[0].clicks)
      ensures trksize - old(trksize) == |trktmp| - |old(trktmp)|
    {
      hide Encode, EncodeAll, VarBytes;
      var top := pend[0];
      LogNext(L, log, Off(top), noteoff, sysextype);
      PutDelta(top.clicks - lasttime);
      if noteoff {
        PutNote(NOTEOFF + ChanOf(top), top.pitch, 0);
      } else {
        PutNote(NOTEON + ChanOf(top), top.pitch, 0);
      }
      pend := pend[1..];
    }

    /** Puts out a note of the phrase; the end of a full note becomes pending. */
    method WriteStart(n: Note, ghost start: seq<int>, ghost L: int, ghost log: seq<Emit>, lasttime: int)
      requires Written(start, L, log, lasttime) && (IsBytes(n) ==> Proper(n.bytes))
      modifies this
      ensures pend == if n.kind == NT_NOTE then AddPending(old(pend), n) else old(pend)
      ensures Written(start, L, log + [Start(n)], n.clicks)
      ensures trksize - old(trksize) == |trktmp| - |old(trktmp)|
    {
      hide Encode, EncodeAll, VarBytes, AddPending;
      LogNext(L, log, Start(n), noteoff, sysextype);
      PutDelta(n.clicks - lasttime);
      if IsBytes(n) {
        PutBytes(n.bytes);
      } else {
        PutNote((if n.kind == NT_OFF then NOTEOFF else NOTEON) + ChanOf(n), n.pitch, n.vol);
        if n.kind == NT_NOTE {
          AddPend(n);
        }
      }
    }

    /** phtrack: the track data is the schedule of the phrase, and the end-of-track event. */
    method PhTrack(p: Phrase) returns (ghost log: seq<Emit>)
      requires p.Linked() && Writable(NotesOf(p.nodes)) && pend == []
      modifies this
      ensures log == Schedule(NotesOf(p.nodes), []) && pend == [] && Messages(AllTimed(log, noteoff))
      ensures trktmp == old(trktmp) + EncodeAll(old(laststat), 0, AllTimed(log, noteoff), sysextype)
        + EndOfTrack(Delta(p.pLeng, LastTime(0, AllTimed(log, noteoff))))
      ensures trksize - old(trksize) == |trktmp| - |old(trktmp)|
    {
      hide EncodeAll, VarBytes, AddPending, Proper, Phrase.Linked, Schedule, NotesOf, Writable;
      ghost var notes, start, L, i := NotesOf(p.nodes), trktmp, laststat, 0;
      assert Written(start, L, [], 0) by { NothingWritten(start, L, noteoff, sysextype); }
      FirstNode(p);
      var n := p.pNotes;
      var lasttime := 0;
      log := [];
      while n != null || pend != []
        invariant p.Linked() && i <= |p.nodes| == |notes| && n == NodeAt(p.nodes, i)
        invariant Written(start, L, log, lasttime)
        invariant log + Schedule(notes[i..], pend) == Schedule(notes, [])
        invariant trksize - old(trksize) == |trktmp| - |start|
        decreases 2 * (|notes| - i) + |pend|
      {
        n, lasttime, log, i := NextEvent(p, n, start, L, log, lasttime, i);
      }
      ScheduleUnfold(notes[i..], pend);
      assert log + [] == log;
      WriteEnd(p.pLeng - lasttime);
    }

    /** endoftrack, after the time that remains. */
    method WriteEnd(remaining: int)
      modifies this`trktmp, this`trksize
      ensures trktmp == old(trktmp) + EndOfTrack(if remaining < 0 then 0 else remaining)
      ensures trksize - old(trksize) == |trktmp| - |old(trktmp)|
    {
      hide VarBytes;
      var toend := remaining;
      if toend < 0 {
        toend := 0;
      }
      PutDelta(toend);
      TrackByte(META);
      TrackByte(0x2f);
      TrackByte(0x00);
    }

    /** One round: whichever is earlier, the top pending note-off or the next note. */
    method NextEvent(p: Phrase, n: Node?, ghost start: seq<int>, ghost L: int, ghost log: seq<Emit>, lasttime: int,
                     ghost i: nat)
      returns (n': Node?, lasttime': int, ghost log': seq<Emit>, ghost i': nat)
      requires p.Linked() && Writable(NotesOf(p.nodes)) && i <= |p.nodes| && n == NodeAt(p.nodes, i)
      requires Written(start, L, log, lasttime) && (n != null || pend != [])
      modifies this
      ensures p.Linked() && i <= i' <= |p.nodes| && n' == NodeAt(p.nodes, i') && Written(start, L, log', lasttime')
      ensures log' + Schedule(NotesOf(p.nodes)[i'..], pend) == log + Schedule(NotesOf(p.nodes)[i..], old(pend))
      ensures trksize - old(trksize) == |trktmp| - |old(trktmp)|
      ensures 2 * (|p.nodes| - i') + |pend| < 2 * (|p.nodes| - i) + |old(pend)|
    {
      hide EncodeAll, VarBytes, AddPending, Proper, Phrase.Linked, Schedule, Written;
      ghost var notes := NotesOf(p.nodes);
      n', lasttime', log', i' := n, lasttime, log, i;
      ScheduleUnfold(notes[i..], pend);
      if n == null || (pend != [] && pend[0].clicks <= n.note.clicks) {
        lasttime' := pend[0].clicks;
        log' := log + [Off(pend[0])];
        SameSchedule(log, Off(pend[0]), Schedule(notes[i..], pend[1..]));
        WriteOff(start, L, log, lasttime);
      } else {
        NextOf(p, i);
        PendingLength(pend, n.note);
        assert notes[i..][1..] == notes[i + 1..] && notes[i..][0] == n.note;
        SameSchedule(log, Start(n.note), Schedule(notes[i + 1..], if n.note.kind == NT_NOTE then AddPending(pend, n.note) else pend));
        WriteStart(n.note, start, L, log, lasttime);
        lasttime' := n.note.clicks;
        log' := log + [Start(n.note)];
        n' := n.next;
        i' := i + 1;
      }
    }
  }

  lemma SameSchedule(log: seq<Emit>, e: Emit, s: seq<Emit>)
    ensures log + ([e] + s) == log + [e] + s
  {
  }

  lemma NothingWritten(start: seq<int>, L: int, noteoff: bool, sysextype: bool)
    ensures Messages(AllTimed([], noteoff)) && AllTimed([], noteoff) == []
    ensures start + EncodeAll(L, 0, AllTimed([], noteoff), sysextype) == start
  {
  }

  lemma FirstNode(p: Phrase)
    requires p.Linked()
    ensures p.pNotes == NodeAt(p.nodes, 0) && NotesOf(p.nodes)[0..] == NotesOf(p.nodes)
  {
  }

  lemma NextOf(p: Phrase, i: nat)
    requires p.Linked() && i < |p.nodes|
    ensures p.nodes[i].next == NodeAt(p.nodes, i + 1)
  {
  }

  lemma PendingLength(pend: seq<Note>, n: Note)
    ensures |AddPending(pend, n)| == |pend| + 1
  {
    AddedLength(pend, n);
  }

  lemma ScheduleUnfold(notes: seq<Note>, pend: seq<Note>)
    ensures Schedule(notes, pend) ==
      if notes == [] && pend == [] then []
      else if notes == [] || (pend != [] && pend[0].clicks <= notes[0].clicks) then [Off(pend[0])] + Schedule(notes, pend[1..])
      else [Start(notes[0])] + Schedule(notes[1..], if notes[0].kind == NT_NOTE then AddPending(pend, notes[0]) else pend)
  {
  }

  // ---------- phtrack as a whole ----------

  lemma LogNext(L: int, log: seq<Emit>, e: Emit, noteoff: bool, sysextype: bool)
    requires Messages(AllTimed(log, noteoff)) && MessageOf(e, noteoff) != []
    ensures Messages(AllTimed(log + [e], noteoff))
    ensures EncodeAll(L, 0, AllTimed(log + [e], noteoff), sysextype) == EncodeAll(L, 0, AllTimed(log, noteoff), sysextype)
      + (VarBytes(Delta(e.note.clicks, LastTime(0, AllTimed(log, noteoff))))
         + Encode(LastStat(L, AllTimed(log, noteoff)), MessageOf(e, noteoff), sysextype))
    ensures LastStat(L, AllTimed(log + [e], noteoff)) == MessageOf(e, noteoff)[0]
    ensures LastTime(0, AllTimed(log + [e], noteoff)) == e.note.clicks
  {
    hide EncodeAll, Encode, VarBytes, MessageOf;
    var events, d := AllTimed(log, noteoff), TimedOf(e, noteoff);
    assert AllTimed(log + [e], noteoff) == events + [d];
    EncodeNext(L, 0, events, d, sysextype);
  }

  /** The clicks from the start of the track to the last of its events. */
  ghost function Elapsed(last: int, s: seq<Emit>): int
    decreases |s|
  {
    if s == [] then 0 else Delta(s[0].note.clicks, last) + Elapsed(s[0].note.clicks, s[1..])
  }

  lemma {:induction false} ElapsedIsLast(last: int, s: seq<Emit>)
    requires TimesRise(s, last)
    ensures last + Elapsed(last, s) == if s == [] then last else s[|s| - 1].note.clicks
    decreases |s|
  {
    if s != [] {
      ElapsedIsLast(s[0].note.clicks, s[1..]);
    }
  }

  /** A phrase in order gives a track whose delta times add up to the time of the last event or,
      if that is longer, the length of the phrase. */
  lemma TrackLength(notes: seq<Note>, leng: int, noteoff: bool)
    requires Ordered(notes) && Sounding(notes) && NotBefore(notes, 0)
    ensures var s := Schedule(notes, []); var last := LastTime(0, AllTimed(s, noteoff));
      TimesRise(s, 0) && Elapsed(0, s) + Delta(leng, last) == if leng < last then last
        else if s == [] && leng < 0 then 0 else leng
  {
    hide Schedule;
    ScheduleRises(notes, [], 0);
    ElapsedIsLast(0, Schedule(notes, []));
  }

  lemma EncodeCases(laststat: int, b: seq<int>, sysextype: bool)
    requires Proper(b)
    ensures b != [] && forall i :: 0 <= i < |b| ==> IsByte(b[i])
    ensures Expecting(b[0]) == |b| ==> Encode(laststat, b, sysextype) == if b[0] == laststat then b[1..]
      else [b[0]] + b[1..]
    ensures Expecting(b[0]) != |b| && b[0] == SYSEX && sysextype ==>
      Encode(laststat, b, sysextype) == [SYSEX] + VarBytes(|b| - 1) + b[1..]
    ensures Expecting(b[0]) != |b| && !(b[0] == SYSEX && sysextype) ==>
      Encode(laststat, b, sysextype) == [ESCAPE] + VarBytes(|b|) + b
  {
    assert [b[0]] + b[1..] == b;
  }

  ghost function Reversed(s: seq<int>): (r: seq<int>)
    ensures |r| == |s|
  {
    seq(|s|, i requires 0 <= i < |s| => s[|s| - 1 - i])
  }

  lemma VarAreBytes(v: nat)
    ensures forall i :: 0 <= i < |VarBytes(v)| ==> IsByte(VarBytes(v)[i])
  {
    TopAreBytes(v / 128, 7);
  }
}
