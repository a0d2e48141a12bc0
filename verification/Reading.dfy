/** readtrack of src/mfin.c: one track chunk of a Standard MIDI File, event by event. */
module Reading {
  import opened Varnums
  import opened Writing

  /** What the reader hands on: a MIDI message, or a meta event. */
  datatype Event = Message(time: int, bytes: seq<int>) | Meta(time: int, kind: int, bytes: seq<int>)

  /** The (possibly running) status byte, an unfinished sysex, the message buffer, the current time,
      the events so far, and whether the reader had to warn. */
  datatype ReadState = ReadState(status: int, sysexcontinue: bool, buffer: seq<int>, time: int, events: seq<Event>, warned: bool)

  datatype ReadStep = Eof | Next(state: ReadState, rest: seq<int>)

  /** chantype: how many data bytes a channel message with this status byte has. */
  function Needed(status: int): nat {
    var high := (status / 16) % 16;
    if high == 8 || high == 9 || high == 10 || high == 11 || high == 14 then 2
    else if high == 12 || high == 13 then 1
    else 0
  }

  function Emitted(st: ReadState, e: Event): ReadState {
    st.(events := st.events + [e])
  }

  /** A channel message; `d` starts after the status byte or, when that was omitted, before the first data byte. */
  function ReadChannel(st: ReadState, d: seq<int>): ReadStep
    requires Needed(st.status) > 0
  {
    var needed := Needed(st.status);
    if |d| < needed then Eof
    else
      Next(Emitted(st, Message(st.time, [st.status, d[0] % 128] + if needed > 1 then [d[1] % 128] else [])), d[needed..])
  }

  function Last(c: int, b: seq<int>): int {
    if b == [] then c else b[|b| - 1]
  }

  /** A length and so many bytes: a sysex, its continuation or arbitrary bytes, or a meta event. */
  function ReadLong(nomerge: bool, st: ReadState, c: int, kind: int, d: seq<int>): ReadStep {
    match ReadVar(d)
    case VarEof => Eof
    case VarNumber(lng, rest) =>
      if lng < 0 || |rest| < lng then Eof
      else
        var b := rest[..lng];
        if c == META then Next(Emitted(st.(buffer := b), Meta(st.time, kind, b)), rest[lng..])
        else if c == SYSEX then
          var st' := st.(buffer := [SYSEX] + b);
          var message := Message(st.time, [SYSEX] + b);
          Next(if Last(c, b) == 0xf7 || !nomerge then Emitted(st', message) else st'.(sysexcontinue := true), rest[lng..])
        else if !st.sysexcontinue then
          Next(Emitted(st.(buffer := b), Message(st.time, b)), rest[lng..])
        else
          var st' := st.(buffer := st.buffer + b);
          Next(if Last(c, b) == 0xf7 then Emitted(st', Message(st.time, st.buffer + b)).(sysexcontinue := false) else st', rest[lng..])
  }

  /** The rest of an event whose first byte after the delta time was c. */
  function ReadBody(nomerge: bool, st: ReadState, c: int, d: seq<int>): ReadStep {
    if Needed(st.status) > 0 then ReadChannel(st, if c < 128 then [c] + d else d)
    else if c == META then (if d == [] then Eof else ReadLong(nomerge, st, c, d[0], d[1..]))
    else if c == SYSEX || c == ESCAPE then ReadLong(nomerge, st, c, 0, d)
    else Next(st.(warned := true), d)
  }

  /** Byte c, a new status byte or not, at dt clicks after the event before. */
  function WithStatus(st: ReadState, dt: int, c: int): ReadState {
    st.(time := st.time + dt, status := if c < 128 then st.status else c,
        warned := st.warned || (st.sysexcontinue && c != 0xf7) || (c < 128 && st.status == 0))
  }

  /** One event of the track. */
  function ReadEvent(nomerge: bool, st: ReadState, d: seq<int>): ReadStep {
    match ReadVar(d)
    case VarEof => Eof
    case VarNumber(dt, d1) =>
      if d1 == [] then Eof else ReadBody(nomerge, WithStatus(st, dt, d1[0]), d1[0], d1[1..])
  }

  /** A step takes at least one byte, and never takes a warning back. */
  ghost predicate Shrinks(st: ReadState, d: seq<int>, r: ReadStep) {
    r.Next? ==> |r.rest| <= |d| && (st.warned ==> r.state.warned)
  }

  lemma LongShrinks(nomerge: bool, st: ReadState, c: int, kind: int, d: seq<int>)
    ensures Shrinks(st, d, ReadLong(nomerge, st, c, kind, d))
  {
    ReadShrinks(0, d);
  }

  lemma BodyShrinks(nomerge: bool, st: ReadState, c: int, d: seq<int>)
    ensures Shrinks(st, d, ReadBody(nomerge, st, c, d))
  {
    hide ReadLong;
    LongShrinks(nomerge, st, c, 0, d);
    if d != [] {
      LongShrinks(nomerge, st, c, d[0], d[1..]);
    }
  }

  lemma ReadEventShrinks(nomerge: bool, st: ReadState, d: seq<int>)
    ensures Shrinks(st, d, ReadEvent(nomerge, st, d))
    ensures ReadEvent(nomerge, st, d).Next? ==> |ReadEvent(nomerge, st, d).rest| < |d|
  {
    hide ReadMore, ReadBody;
    ReadShrinks(0, d);
    var r := ReadVar(d);
    if r.VarNumber? && r.rest != [] {
      BodyShrinks(nomerge, WithStatus(st, r.value, r.rest[0]), r.rest[0], r.rest[1..]);
    }
  }

  datatype TrackResult = PrematureEof | Track(state: ReadState, rest: seq<int>)

  /** The loop over the track: toberead bytes are left of it. */
  function ReadAll(nomerge: bool, st: ReadState, d: seq<int>, toberead: int): TrackResult
    decreases |d|
  {
    if toberead <= 0 then Track(st, d)
    else
      ReadEventShrinks(nomerge, st, d);
      match ReadEvent(nomerge, st, d)
      case Eof => PrematureEof
      case Next(st', rest) => ReadAll(nomerge, st', rest, toberead - (|d| - |rest|))
  }

  const START := ReadState(0, false, [], 0, [], false)

  class TrackReader {
    /** What is left of the file, and of the track chunk. */
    var mf: seq<int>
    var mfToBeRead: int
    const nomerge: bool
    var st: ReadState

    constructor (nomerge: bool, mf: seq<int>, toberead: int)
      ensures this.nomerge == nomerge && this.mf == mf && mfToBeRead == toberead && st == START
    {
      this.nomerge, this.mf, mfToBeRead, st := nomerge, mf, toberead, START;
    }

    /** egetc; false stands for the error at the end of the file. */
    method EGetC() returns (ok: bool, c: int)
      modifies this`mf, this`mfToBeRead
      ensures ok <==> old(mf) != []
      ensures ok ==> c == old(mf)[0] && mf == old(mf)[1..] && mfToBeRead == old(mfToBeRead) - 1
    {
      if mf == [] {
        return false, 0;
      }
      ok, c := true, mf[0];
      mf := mf[1..];
      mfToBeRead := mfToBeRead - 1;
    }

    /** How many bytes have been taken from the file since it was d. */
    ghost predicate Taken(d: seq<int>, toberead: int)
      reads this`mf, this`mfToBeRead
    {
      |mf| <= |d| && mfToBeRead == toberead - (|d| - |mf|)
    }

    /** readvarinum */
    method ReadVarinum() returns (ok: bool, value: int)
      modifies this`mf, this`mfToBeRead
      ensures ok <==> ReadVar(old(mf)).VarNumber?
      ensures ok ==> ReadVar(old(mf)) == VarNumber(value, mf) && Taken(old(mf), old(mfToBeRead))
    {
      var c;
      ok, c := EGetC();
      if !ok {
        return false, 0;
      }
      value := c % 128;
      while c >= 128
        invariant Taken(old(mf), old(mfToBeRead)) && |mf| < |old(mf)|
        invariant ReadVar(old(mf)) == if c >= 128 then ReadMore(value, mf) else VarNumber(value, mf)
        decreases |mf|, c
      {
        ok, c := EGetC();
        if !ok {
          return false, 0;
        }
        value := value * 128 + c % 128;
      }
      ok := true;
    }

    /** lng bytes. */
    method ReadBytes(lng: int) returns (ok: bool, b: seq<int>)
      requires lng >= 0
      modifies this`mf, this`mfToBeRead
      ensures ok <==> lng <= |old(mf)|
      ensures ok ==> b == old(mf)[..lng] && mf == old(mf)[lng..] && mfToBeRead == old(mfToBeRead) - lng
    {
      var lookfor := mfToBeRead - lng;
      b := [];
      ok := true;
      while mfToBeRead > lookfor
        invariant |b| <= lng && |b| <= |old(mf)| && b == old(mf)[..|b|] && mf == old(mf)[|b|..]
        invariant mfToBeRead == old(mfToBeRead) - |b|
        decreases lng - |b|
      {
        var c;
        ok, c := EGetC();
        if !ok {
          return false, [];
        }
        b := b + [c];
      }
    }

    method ReadChannelMessage(running: bool, c: int) returns (ok: bool)
      requires Needed(st.status) > 0
      modifies this
      ensures var r := ReadChannel(old(st), if running then [c] + old(mf) else old(mf));
        if r.Eof? then !ok else ok && st == r.state && mf == r.rest && Taken(old(mf), old(mfToBeRead))
    {
      var needed := Needed(st.status);
      ok := true;
      var c1, c2 := c % 128, 0;
      if !running {
        ok, c1 := EGetC();
        if !ok {
          return;
        }
        c1 := c1 % 128;
      }
      if needed > 1 {
        ok, c2 := EGetC();
        if !ok {
          return;
        }
      }
      st := Emitted(st, Message(st.time, [st.status, c1] + if needed > 1 then [c2 % 128] else []));
      assert [st.status, c1] == [st.status, c1] + [];
    }

    method ReadLongMessage(c: int, kind: int) returns (ok: bool)
      modifies this
      ensures var r := ReadLong(nomerge, old(st), c, kind, old(mf));
        if r.Eof? then !ok else ok && st == r.state && mf == r.rest && Taken(old(mf), old(mfToBeRead))
    {
      hide ReadMore;
      ReadShrinks(0, mf);
      VarNonnegative(0, mf);
      var lng, b;
      ok, lng := ReadVarinum();
      if !ok {
        return;
      }
      ok, b := ReadBytes(lng);
      if !ok {
        return;
      }
      if c == META {
        st := Emitted(st.(buffer := b), Meta(st.time, kind, b));
      } else if c == SYSEX {
        st := st.(buffer := [SYSEX] + b);
        if Last(c, b) == 0xf7 || !nomerge {
          st := Emitted(st, Message(st.time, st.buffer));
        } else {
          st := st.(sysexcontinue := true);
        }
      } else if !st.sysexcontinue {
        st := st.(buffer := b);
        st := Emitted(st, Message(st.time, st.buffer));
      } else {
        st := st.(buffer := st.buffer + b);
        if Last(c, b) == 0xf7 {
          st := Emitted(st, Message(st.time, st.buffer)).(sysexcontinue := false);
        }
      }
    }

    method ReadRest(c: int) returns (ok: bool)
      modifies this
      ensures var r := ReadBody(nomerge, old(st), c, old(mf));
        if r.Eof? then !ok else ok && st == r.state && mf == r.rest && Taken(old(mf), old(mfToBeRead))
    {
      hide ReadLong, ReadChannel;
      BodyShrinks(nomerge, st, c, mf);
      ok := true;
      if Needed(st.status) > 0 {
        ok := ReadChannelMessage(c < 128, c);
      } else if c == META {
        var kind;
        ok, kind := EGetC();
        if ok {
          ok := ReadLongMessage(c, kind);
        }
      } else if c == SYSEX || c == ESCAPE {
        ok := ReadLongMessage(c, 0);
      } else {
        st := st.(warned := true);
      }
    }

    method TakeStatus(dt: int, c: int)
      modifies this`st
      ensures st == WithStatus(old(st), dt, c)
    {
      st := st.(time := st.time + dt);
      if st.sysexcontinue && c != 0xf7 {
        st := st.(warned := true);
      }
      if c < 128 {
        if st.status == 0 {
          st := st.(warned := true);
        }
      } else {
        st := st.(status := c);
      }
    }

    method ReadOne() returns (ok: bool)
      modifies this
      ensures var r := ReadEvent(nomerge, old(st), old(mf));
        if r.Eof? then !ok else ok && st == r.state && mf == r.rest && Taken(old(mf), old(mfToBeRead))
    {
      hide ReadMore, ReadVar, ReadBody, WithStatus, ReadEvent;
      EventUnfold(nomerge, st, mf);
      var dt, c;
      ok, dt := ReadVarinum();
      if !ok {
        return;
      }
      ok, c := EGetC();
      if !ok {
        return;
      }
      TakeStatus(dt, c);
      ok := ReadRest(c);
    }

    /** The loop of readtrack. */
    method ReadTrack() returns (ok: bool)
      requires st == START
      modifies this
      ensures var r := ReadAll(nomerge, START, old(mf), old(mfToBeRead));
        if r.PrematureEof? then !ok else ok && st == r.state && mf == r.rest
    {
      hide ReadEvent;
      ok := true;
      while mfToBeRead > 0
        invariant ReadAll(nomerge, START, old(mf), old(mfToBeRead)) == ReadAll(nomerge, st, mf, mfToBeRead)
        decreases |mf|
      {
        ReadEventShrinks(nomerge, st, mf);
        ok := ReadOne();
        if !ok {
          return;
        }
      }
    }
  }

  lemma EventUnfold(nomerge: bool, st: ReadState, d: seq<int>)
    ensures ReadEvent(nomerge, st, d) == match ReadVar(d)
      case VarEof => Eof
      case VarNumber(dt, d1) => if d1 == [] then Eof else ReadBody(nomerge, WithStatus(st, dt, d1[0]), d1[0], d1[1..])
  {
  }

  lemma {:induction false} VarNonnegative(value: int, d: seq<int>)
    requires value >= 0
    ensures ReadMore(value, d).VarNumber? ==> ReadMore(value, d).value >= 0
    decreases |d|
  {
    if d != [] && d[0] >= 128 {
      VarNonnegative(value * 128 + d[0] % 128, d[1..]);
    }
  }
}
