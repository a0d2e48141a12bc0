/** Writing a track and reading it back. */
module RoundTrip {
  import opened Bytes
  import opened Notes
  import opened Phrases
  import opened Varnums
  import opened Writing
  import opened TrackWriting
  import opened Reading

  const LIMIT := 0x100_0000_0000_0000

  /** A message that the format can carry: bytes, of a length that fits a variable-length number;
      the data bytes of a channel message have a clear high bit. */
  ghost predicate Carried(m: seq<int>) {
    && Proper(m) && |m| < LIMIT
    && (IsChannel(m) ==> forall i :: 1 <= i < |m| ==> m[i] < 128)
  }

  /** A sysex that the reader takes as finished. */
  predicate Finished(m: seq<int>, sysextype: bool, nomerge: bool) {
    m != [] && (m[0] == SYSEX && sysextype && nomerge ==> |m| > 1 && m[|m| - 1] == 0xf7)
  }

  ghost predicate TrackOk(events: seq<Timed>, last: int, sysextype: bool, nomerge: bool) {
    && (forall i :: 0 <= i < |events| ==> Carried(events[i].message) && Finished(events[i].message, sysextype, nomerge))
    && (forall i :: 0 <= i < |events| ==> last <= events[i].time)
    && (forall i, j :: 0 <= i < j < |events| ==> events[i].time <= events[j].time)
    && (forall i :: 0 <= i < |events| ==> events[i].time - last < LIMIT)
  }

  /** The writer leaves out a status byte that the reader does not have: message m follows one that
      was written with the escape and began with the same byte. */
  predicate Clash(laststat: int, status: int, m: seq<int>) {
    IsChannel(m) && m[0] == laststat && status != laststat
  }

  /** The reader's status byte after message m. */
  function StatusAfter(m: seq<int>, sysextype: bool): int
    requires m != []
  {
    if IsChannel(m) then m[0] else if m[0] == SYSEX && sysextype then SYSEX else ESCAPE
  }

  /** No channel message follows an escaped message that begins with its status byte. */
  predicate NoClash(laststat: int, status: int, events: seq<Timed>, sysextype: bool)
    requires forall i :: 0 <= i < |events| ==> events[i].message != []
    decreases |events|
  {
    events == [] ||
    (!Clash(laststat, status, events[0].message)
      && NoClash(events[0].message[0], StatusAfter(events[0].message, sysextype), events[1..], sysextype))
  }

  function Received(events: seq<Timed>): (r: seq<Event>)
    ensures |r| == |events|
  {
    seq(|events|, i requires 0 <= i < |events| => Message(events[i].time, events[i].message))
  }

  // ---------- One event ----------

  lemma ReadDelta(delta: nat, s: seq<int>)
    requires delta < LIMIT
    ensures ReadVar(VarBytes(delta) + s) == VarNumber(delta, s)
  {
    VarExact(delta, s);
  }

  lemma NibbleOfByte(c: int)
    requires IsByte(c)
    ensures Expecting(c) == 0 <==> Needed(c) == 0
    ensures Expecting(c) > 0 ==> Expecting(c) == Needed(c) + 1 && c >= 128
  {
    assert (c / 16) % 16 == c / 16;
  }

  /** A channel message is read back, if the reader has its status byte or the writer wrote it. */
  lemma ReadsChannel(nomerge: bool, st: ReadState, laststat: int, delta: nat, m: seq<int>, sysextype: bool, s: seq<int>)
    requires Carried(m) && IsChannel(m) && delta < LIMIT && !Clash(laststat, st.status, m)
    requires !st.sysexcontinue && !st.warned
    ensures ReadEvent(nomerge, st, VarBytes(delta) + Encode(laststat, m, sysextype) + s) ==
      Next(Emitted(st.(time := st.time + delta, status := m[0]), Message(st.time + delta, m)), s)
  {
    hide VarBytes, ReadMore;
    NibbleOfByte(m[0]);
    var e := Encode(laststat, m, sysextype);
    assert VarBytes(delta) + e + s == VarBytes(delta) + (e + s);
    ReadDelta(delta, e + s);
    assert forall i :: 1 <= i < |m| ==> m[i] % 128 == m[i];
    var d := e + s;
    var st' := WithStatus(st, delta, d[0]);
    assert st'.status == m[0];
    if m[0] == laststat {
      assert [d[0]] + d[1..] == m[1..] + s;
      assert (m[1..] + s)[|m| - 1..] == s;
    } else {
      assert d[1..] == m[1..] + s;
      assert (m[1..] + s)[|m| - 1..] == s;
    }
    assert m == if |m| == 3 then [m[0], m[1]] + [m[2]] else [m[0], m[1]] + [];
  }

  /** How an event begins: its delta time, and the first byte after it. */
  lemma EventIs(nomerge: bool, st: ReadState, delta: nat, d: seq<int>)
    requires delta < LIMIT && d != []
    ensures ReadEvent(nomerge, st, VarBytes(delta) + d) == ReadBody(nomerge, WithStatus(st, delta, d[0]), d[0], d[1..])
  {
    hide VarBytes, ReadMore, ReadVar, ReadBody, WithStatus;
    ReadDelta(delta, d);
    EventUnfold(nomerge, st, VarBytes(delta) + d);
  }

  lemma LongIs(nomerge: bool, st: ReadState, c: int, b: seq<int>, s: seq<int>)
    requires |b| < LIMIT && !st.sysexcontinue && (c == SYSEX || c == ESCAPE)
    requires c == SYSEX && nomerge ==> b != [] && b[|b| - 1] == 0xf7
    ensures var m := if c == SYSEX then [SYSEX] + b else b;
      ReadLong(nomerge, st, c, 0, VarBytes(|b|) + (b + s)) == Next(Emitted(st.(buffer := m), Message(st.time, m)), s)
  {
    hide VarBytes, ReadMore, ReadVar;
    ReadDelta(|b|, b + s);
    assert (b + s)[..|b|] == b && (b + s)[|b|..] == s;
  }

  /** So is a sysex, and any other message behind the escape. */
  lemma ReadsLong(nomerge: bool, st: ReadState, laststat: int, delta: nat, m: seq<int>, sysextype: bool, s: seq<int>)
    requires Carried(m) && !IsChannel(m) && Finished(m, sysextype, nomerge) && delta < LIMIT
    requires !st.sysexcontinue && !st.warned
    ensures ReadEvent(nomerge, st, VarBytes(delta) + Encode(laststat, m, sysextype) + s) ==
      Next(Emitted(st.(time := st.time + delta, status := StatusAfter(m, sysextype), buffer := m), Message(st.time + delta, m)), s)
  {
    hide VarBytes, ReadLong, ReadEvent, ReadChannel, Proper;
    var e, c := Encode(laststat, m, sysextype), StatusAfter(m, sysextype);
    var b := if m[0] == SYSEX && sysextype then m[1..] else m;
    var d := VarBytes(|b|) + (b + s);
    assert e == [c] + VarBytes(|b|) + b;
    Regroup(VarBytes(delta), c, VarBytes(|b|), b, s);
    EventIs(nomerge, st, delta, [c] + d);
    assert ([c] + d)[1..] == d;
    var st' := WithStatus(st, delta, c);
    LongIs(nomerge, st', c, b, s);
    assert m[0] == SYSEX && sysextype ==> [SYSEX] + b == m;
  }

  lemma Regroup(v: seq<int>, c: int, w: seq<int>, b: seq<int>, s: seq<int>)
    ensures v + ([c] + w + b) + s == v + ([c] + (w + (b + s)))
  {
  }

  /** In a clash the reader meets a data byte under the escape, and warns. */
  lemma ClashWarns(nomerge: bool, st: ReadState, laststat: int, delta: nat, m: seq<int>, sysextype: bool, s: seq<int>)
    requires Carried(m) && Clash(laststat, st.status, m) && delta < LIMIT
    requires st.status == ESCAPE
    ensures ReadEvent(nomerge, st, VarBytes(delta) + Encode(laststat, m, sysextype) + s).Next?
    ensures ReadEvent(nomerge, st, VarBytes(delta) + Encode(laststat, m, sysextype) + s).state.warned
  {
    hide VarBytes, ReadMore;
    NibbleOfByte(m[0]);
    var e := Encode(laststat, m, sysextype);
    assert VarBytes(delta) + e + s == VarBytes(delta) + (e + s);
    ReadDelta(delta, e + s);
    assert (e + s)[0] == m[1];
  }

  lemma {:induction false} WarnedStays(nomerge: bool, st: ReadState, d: seq<int>, toberead: int)
    requires st.warned
    ensures ReadAll(nomerge, st, d, toberead).Track? ==> ReadAll(nomerge, st, d, toberead).state.warned
    decreases |d|
  {
    hide ReadEvent;
    if toberead > 0 {
      ReadEventShrinks(nomerge, st, d);
      var r := ReadEvent(nomerge, st, d);
      if r.Next? {
        WarnedStays(nomerge, r.state, r.rest, toberead - (|d| - |r.rest|));
      }
    }
  }

  // ---------- Events byte by byte ----------

  /** How a message stands in the file: a channel message as it is, but without the status byte that it
      shares with the message before; a sysex, if so asked for, behind 0xf0 and the length of the rest;
      anything else behind 0xf7 and its length. */
  lemma WrittenAs(laststat: int, m: seq<int>, sysextype: bool)
    requires Proper(m)
    ensures Encode(laststat, m, sysextype) ==
      if 0x80 <= m[0] < 0xf0 && |m| == (if 0xc0 <= m[0] < 0xe0 then 2 else 3) then
        (if m[0] == laststat then m[1..] else m)
      else if m[0] == 0xf0 && sysextype then [0xf0] + VarBytes(|m| - 1) + m[1..]
      else [0xf7] + VarBytes(|m|) + m
  {
    hide VarBytes;
    var high := m[0] / 16;
    assert 16 * high <= m[0] < 16 * high + 16;
  }

  /** A channel message, with its status byte or with that of the message before: two data bytes, or
      one for a status byte from 0xc0 to 0xdf. */
  lemma ReadsMessage(nomerge: bool, st: ReadState, delta: nat, status: int, data: seq<int>, running: bool, s: seq<int>)
    requires delta < LIMIT && !st.sysexcontinue && 0x80 <= status < 0xf0 && (running ==> st.status == status)
    requires |data| == (if 0xc0 <= status < 0xe0 then 1 else 2) && forall i :: 0 <= i < |data| ==> 0 <= data[i] < 128
    ensures ReadEvent(nomerge, st, VarBytes(delta) + ((if running then data else [status] + data) + s)) ==
      Next(st.(time := st.time + delta, status := status,
               events := st.events + [Message(st.time + delta, [status] + data)]), s)
  {
    hide VarBytes, ReadMore, ReadVar, ReadEvent, ReadChannel, Needed;
    var d := (if running then data else [status] + data) + s;
    EventIs(nomerge, st, delta, d);
    assert (if running then [d[0]] + d[1..] else d[1..]) == data + s;
    ReadsData(WithStatus(st, delta, d[0]), data, s);
  }

  lemma ReadsData(st: ReadState, data: seq<int>, s: seq<int>)
    requires 0x80 <= st.status < 0xf0
    requires |data| == (if 0xc0 <= st.status < 0xe0 then 1 else 2) && forall i :: 0 <= i < |data| ==> 0 <= data[i] < 128
    ensures Needed(st.status) > 0
    ensures ReadChannel(st, data + s) ==
      Next(st.(events := st.events + [Message(st.time, [st.status] + data)]), s)
  {
    var high := st.status / 16;
    assert high % 16 == high && 16 * high <= st.status < 16 * high + 16;
    assert (data + s)[|data|..] == s;
    assert [st.status] + data == [st.status, data[0]] + if |data| == 2 then [data[1]] else [];
  }

  /** A meta event is read as its kind and its bytes, at the time reached. */
  lemma ReadsMeta(nomerge: bool, st: ReadState, delta: nat, kind: int, b: seq<int>, s: seq<int>)
    requires delta < LIMIT && |b| < LIMIT
    ensures ReadEvent(nomerge, st, VarBytes(delta) + ([0xff, kind] + (VarBytes(|b|) + (b + s)))) ==
      Next(st.(time := st.time + delta, status := 0xff, buffer := b, warned := st.warned || st.sysexcontinue,
               events := st.events + [Meta(st.time + delta, kind, b)]), s)
  {
    hide VarBytes, ReadMore, ReadVar;
    var d := [kind] + (VarBytes(|b|) + (b + s));
    assert [0xff, kind] + (VarBytes(|b|) + (b + s)) == [0xff] + d;
    EventIs(nomerge, st, delta, [0xff] + d);
    assert ([0xff] + d)[1..] == d && d[1..] == VarBytes(|b|) + (b + s);
    ReadDelta(|b|, b + s);
    assert (b + s)[..|b|] == b && (b + s)[|b|..] == s;
  }

  /** The state after a packet of a sysex (0xf0) or of its continuation (0xf7). */
  function AfterPacket(nomerge: bool, st: ReadState, c: int, b: seq<int>): ReadState
    requires b != []
  {
    var ends := b[|b| - 1] == 0xf7;
    var m := if c == 0xf0 then [0xf0] + b else if st.sysexcontinue then st.buffer + b else b;
    var hand := ends || (if c == 0xf0 then !nomerge else !st.sysexcontinue);
    st.(buffer := m, events := if hand then st.events + [Message(st.time, m)] else st.events,
        sysexcontinue := if c == 0xf0 then st.sysexcontinue || !hand else st.sysexcontinue && !hand)
  }

  lemma LongPacket(nomerge: bool, st: ReadState, c: int, b: seq<int>, s: seq<int>)
    requires |b| < LIMIT && (c == 0xf0 || c == 0xf7) && b != []
    ensures ReadLong(nomerge, st, c, 0, VarBytes(|b|) + (b + s)) == Next(AfterPacket(nomerge, st, c, b), s)
  {
    hide VarBytes, ReadMore, ReadVar;
    ReadDelta(|b|, b + s);
    assert (b + s)[..|b|] == b && (b + s)[|b|..] == s;
  }

  lemma ReadsPacket(nomerge: bool, st: ReadState, delta: nat, c: int, b: seq<int>, s: seq<int>)
    requires delta < LIMIT && |b| < LIMIT && (c == 0xf0 || c == 0xf7) && b != []
    ensures ReadEvent(nomerge, st, VarBytes(delta) + ([c] + (VarBytes(|b|) + (b + s)))) ==
      Next(AfterPacket(nomerge, WithStatus(st, delta, c), c, b), s)
  {
    hide VarBytes, ReadMore, ReadVar, ReadEvent, ReadLong, AfterPacket;
    var d := VarBytes(|b|) + (b + s);
    EventIs(nomerge, st, delta, [c] + d);
    assert ([c] + d)[1..] == d;
    LongPacket(nomerge, WithStatus(st, delta, c), c, b, s);
  }

  /** A sysex in two packets is handed on as one message, or as the two parts that it came in. */
  lemma ReadsTwoPackets(nomerge: bool, st: ReadState, delta: nat, b: seq<int>, delta': nat, b': seq<int>, s: seq<int>)
    returns (st1: ReadState, st2: ReadState)
    requires delta < LIMIT && |b| < LIMIT && delta' < LIMIT && |b'| < LIMIT && b != [] && b' != []
    requires b[|b| - 1] != 0xf7 && b'[|b'| - 1] == 0xf7 && !st.sysexcontinue && !st.warned
    ensures var d := VarBytes(delta') + ([0xf7] + (VarBytes(|b'|) + (b' + s)));
      && ReadEvent(nomerge, st, VarBytes(delta) + ([0xf0] + (VarBytes(|b|) + (b + d)))) == Next(st1, d)
      && ReadEvent(nomerge, st1, d) == Next(st2, s)
    ensures !st2.sysexcontinue && !st2.warned && st2.time == st.time + delta + delta'
    ensures nomerge ==> st2.events == st.events + [Message(st2.time, [0xf0] + b + b')]
    ensures !nomerge ==> st2.events == st.events + [Message(st.time + delta, [0xf0] + b), Message(st2.time, b')]
  {
    hide ReadEvent, VarBytes, ReadMore, AfterPacket, WithStatus;
    var d := VarBytes(delta') + ([0xf7] + (VarBytes(|b'|) + (b' + s)));
    ReadsPacket(nomerge, st, delta, 0xf0, b, d);
    st1 := AfterPacket(nomerge, WithStatus(st, delta, 0xf0), 0xf0, b);
    ReadsPacket(nomerge, st1, delta', 0xf7, b', s);
    st2 := AfterPacket(nomerge, WithStatus(st1, delta', 0xf7), 0xf7, b');
    AfterTwo(nomerge, st, delta, b, delta', b');
  }

  lemma AfterTwo(nomerge: bool, st: ReadState, delta: nat, b: seq<int>, delta': nat, b': seq<int>)
    requires b != [] && b' != [] && b[|b| - 1] != 0xf7 && b'[|b'| - 1] == 0xf7 && !st.sysexcontinue && !st.warned
    ensures var st1 := AfterPacket(nomerge, WithStatus(st, delta, 0xf0), 0xf0, b);
      var st2 := AfterPacket(nomerge, WithStatus(st1, delta', 0xf7), 0xf7, b');
      && !st2.sysexcontinue && !st2.warned && st2.time == st.time + delta + delta'
      && (nomerge ==> st2.events == st.events + [Message(st2.time, [0xf0] + b + b')])
      && (!nomerge ==>
            st2.events == st.events + [Message(st.time + delta, [0xf0] + b), Message(st2.time, b')])
  {
    var first := Message(st.time + delta, [0xf0] + b);
    var last := Message(st.time + delta + delta', b');
    assert st.events + [first] + [last] == st.events + [first, last];
  }

  // ---------- The whole track ----------

  /** The reader took exactly the track, did not warn, and received the events and the end of the track. */
  ghost predicate ReadBack(r: TrackResult, before: seq<Event>, events: seq<Timed>, end: int, tail: seq<int>) {
    && r.Track? && r.rest == tail && !r.state.warned
    && r.state.events == before + Received(events) + [Meta(end, 0x2f, [])]
  }

  lemma ReadsEnd(nomerge: bool, st: ReadState, toend: nat, tail: seq<int>)
    requires toend < LIMIT && !st.sysexcontinue && !st.warned
    ensures ReadBack(ReadAll(nomerge, st, EndOfTrack(toend) + tail, |EndOfTrack(toend)|), st.events, [], st.time + toend, tail)
  {
    hide VarBytes, ReadMore, ReadEvent;
    var d := [META, 0x2f, 0x00] + tail;
    assert EndOfTrack(toend) + tail == VarBytes(toend) + d;
    EventIs(nomerge, st, toend, d);
    var st' := WithStatus(st, toend, META);
    assert d[1..] == [0x2f, 0x00] + tail && d[1..][1..] == [0x00] + tail;
    ReadsZero(tail);
    assert tail[..0] == [] && tail[0..] == tail;
    assert ReadEvent(nomerge, st, VarBytes(toend) + d) == Next(Emitted(st'.(buffer := []), Meta(st.time + toend, 0x2f, [])), tail);
    assert Received([]) == [];
    assert st.events + [] + [Meta(st.time + toend, 0x2f, [])] == st.events + [Meta(st.time + toend, 0x2f, [])];
  }

  lemma ReadsZero(tail: seq<int>)
    ensures ReadVar([0x00] + tail) == VarNumber(0, tail)
  {
    assert ([0x00] + tail)[1..] == tail;
  }

  /** The writer's last status byte and the reader's status byte go together. */
  predicate InSync(laststat: int, status: int) {
    status == laststat || status == ESCAPE || Expecting(laststat) == 0
  }

  lemma OneRound(nomerge: bool, st: ReadState, a: seq<int>, b: seq<int>, tail: seq<int>, st': ReadState)
    requires a != [] && ReadEvent(nomerge, st, a + (b + tail)) == Next(st', b + tail)
    ensures ReadAll(nomerge, st, a + b + tail, |a + b|) == ReadAll(nomerge, st', b + tail, |b|)
  {
    hide ReadEvent;
    assert a + b + tail == a + (b + tail);
  }

  lemma OneStep(nomerge: bool, st: ReadState, laststat: int, delta: nat, m: seq<int>, sysextype: bool, s: seq<int>)
    returns (st': ReadState)
    requires Carried(m) && Finished(m, sysextype, nomerge) && delta < LIMIT && !Clash(laststat, st.status, m)
    requires !st.sysexcontinue && !st.warned
    ensures ReadEvent(nomerge, st, VarBytes(delta) + Encode(laststat, m, sysextype) + s) == Next(st', s)
    ensures st'.status == StatusAfter(m, sysextype) && !st'.sysexcontinue && !st'.warned && st'.time == st.time + delta
    ensures st'.events == st.events + [Message(st'.time, m)] && InSync(m[0], st'.status)
  {
    hide ReadEvent, VarBytes, Encode, Proper;
    if IsChannel(m) {
      ReadsChannel(nomerge, st, laststat, delta, m, sysextype, s);
      st' := Emitted(st.(time := st.time + delta, status := m[0]), Message(st.time + delta, m));
    } else {
      ReadsLong(nomerge, st, laststat, delta, m, sysextype, s);
      st' := Emitted(st.(time := st.time + delta, status := StatusAfter(m, sysextype), buffer := m), Message(st.time + delta, m));
    }
  }

  lemma TailOk(events: seq<Timed>, last: int, sysextype: bool, nomerge: bool)
    requires TrackOk(events, last, sysextype, nomerge) && events != []
    ensures TrackOk(events[1..], events[0].time, sysextype, nomerge)
    ensures Carried(events[0].message) && Finished(events[0].message, sysextype, nomerge)
    ensures events[0].message != [] && last <= events[0].time && events[0].time - last < LIMIT
  {
    hide Carried, Finished;
    assert Carried(events[0].message);
    CarriedNotEmpty(events[0].message);
  }

  lemma CarriedNotEmpty(m: seq<int>)
    requires Carried(m)
    ensures m != []
  {
  }

  lemma Nonempty(events: seq<Timed>, last: int, sysextype: bool, nomerge: bool)
    requires TrackOk(events, last, sysextype, nomerge)
    ensures Messages(events)
  {
    forall i | 0 <= i < |events| ensures events[i].message != [] {
      assert Carried(events[i].message);
    }
  }

  /** From events that are in order on, the track is read back exactly when no status byte clashes. */
  lemma {:induction false} ReadsTrack(nomerge: bool, st: ReadState, laststat: int, last: int, events: seq<Timed>,
                                      toend: nat, sysextype: bool, tail: seq<int>)
    requires TrackOk(events, last, sysextype, nomerge) && Messages(events) && toend < LIMIT
    requires !st.sysexcontinue && !st.warned && st.time == last && InSync(laststat, st.status)
    ensures var d := EncodeAll(laststat, last, events, sysextype) + EndOfTrack(toend);
      var r := ReadAll(nomerge, st, d + tail, |d|);
      ReadBack(r, st.events, events, LastTime(last, events) + toend, tail) <==>
        NoClash(laststat, st.status, events, sysextype)
    decreases |events|
  {
    hide TrackOk, ReadAll, ReadEvent, VarBytes, Encode, EndOfTrack, Clash, Expecting, ReadBack;
    if events == [] {
      assert [] + EndOfTrack(toend) == EndOfTrack(toend);
      ReadsEnd(nomerge, st, toend, tail);
    } else {
      TailOk(events, last, sysextype, nomerge);
      var m, time := events[0].message, events[0].time;
      var delta := Delta(time, last);
      var a := VarBytes(delta) + Encode(laststat, m, sysextype);
      var b := EncodeAll(m[0], time, events[1..], sysextype) + EndOfTrack(toend);
      assert EncodeAll(laststat, last, events, sysextype) + EndOfTrack(toend) == a + b;
      VarNotEmpty(delta);
      if Clash(laststat, st.status, m) {
        ClashIsEscape(laststat, st.status, m);
        ClashWarns(nomerge, st, laststat, delta, m, sysextype, b + tail);
        ClashSpoils(nomerge, st, a, b, tail, st.events, events, LastTime(last, events) + toend);
      } else {
        var st' := OneStep(nomerge, st, laststat, delta, m, sysextype, b + tail);
        OneRound(nomerge, st, a, b, tail, st');
        Nonempty(events[1..], time, sysextype, nomerge);
        ReadsTrack(nomerge, st', m[0], time, events[1..], toend, sysextype, tail);
        SameReadBack(ReadAll(nomerge, st', b + tail, |b|), st.events, events, LastTime(last, events) + toend, tail);
      }
    }
  }

  lemma VarNotEmpty(v: nat)
    ensures VarBytes(v) != []
  {
  }

  lemma ClashIsEscape(laststat: int, status: int, m: seq<int>)
    requires Clash(laststat, status, m) && InSync(laststat, status)
    ensures status == ESCAPE
  {
  }

  lemma ClashSpoils(nomerge: bool, st: ReadState, a: seq<int>, b: seq<int>, tail: seq<int>, before: seq<Event>,
                    events: seq<Timed>, end: int)
    requires a != [] && ReadEvent(nomerge, st, a + (b + tail)).Next?
    requires ReadEvent(nomerge, st, a + (b + tail)).state.warned
    ensures !ReadBack(ReadAll(nomerge, st, a + b + tail, |a + b|), before, events, end, tail)
  {
    hide ReadEvent;
    assert a + b + tail == a + (b + tail);
    var d := a + (b + tail);
    var r := ReadEvent(nomerge, st, d);
    ReadEventShrinks(nomerge, st, d);
    WarnedStays(nomerge, r.state, r.rest, |a + b| - (|d| - |r.rest|));
  }

  lemma SameReadBack(r: TrackResult, before: seq<Event>, events: seq<Timed>, end: int, tail: seq<int>)
    requires events != []
    ensures ReadBack(r, before, events, end, tail) <==>
      ReadBack(r, before + [Message(events[0].time, events[0].message)], events[1..], end, tail)
  {
    assert Received(events) == [Message(events[0].time, events[0].message)] + Received(events[1..]);
    assert before + Received(events) == before + [Message(events[0].time, events[0].message)] + Received(events[1..]);
  }

  /** A track written from the start of a file is read back exactly when no status byte clashes. */
  lemma TrackRoundTrip(nomerge: bool, events: seq<Timed>, toend: nat, sysextype: bool, tail: seq<int>)
    requires TrackOk(events, 0, sysextype, nomerge) && Messages(events) && toend < LIMIT
    ensures var d := EncodeAll(-1, 0, events, sysextype) + EndOfTrack(toend);
      var r := ReadAll(nomerge, START, d + tail, |d|);
      ReadBack(r, [], events, LastTime(0, events) + toend, tail) <==> NoClash(-1, 0, events, sysextype)
  {
    ReadsTrack(nomerge, START, -1, 0, events, toend, sysextype, tail);
  }

  /** Message i is a channel message right behind an escaped one that begins with its status byte. */
  predicate BehindItsLike(events: seq<Timed>, i: nat)
    requires 0 < i < |events| && Messages(events)
  {
    var m, before := events[i].message, events[i - 1].message;
    IsChannel(m) && !IsChannel(before) && before[0] == m[0]
  }

  /** The condition in terms of neighbouring messages. */
  lemma {:induction false} NoClashMeans(laststat: int, status: int, events: seq<Timed>, sysextype: bool)
    requires Messages(events)
    ensures NoClash(laststat, status, events, sysextype) <==>
      (events == [] || !Clash(laststat, status, events[0].message)) && forall i :: 0 < i < |events| ==>
        !BehindItsLike(events, i)
    decreases |events|
  {
    if |events| > 1 {
      var rest, m := events[1..], events[0].message;
      NoClashMeans(m[0], StatusAfter(m, sysextype), rest, sysextype);
      assert Clash(m[0], StatusAfter(m, sysextype), rest[0].message) <==> BehindItsLike(events, 1) by {
        NextClash(m, rest[0].message, sysextype);
      }
      assert forall i :: 0 < i < |rest| ==> BehindItsLike(rest, i) == BehindItsLike(events, i + 1);
      forall i | 1 < i < |events| ensures BehindItsLike(events, i) == BehindItsLike(rest, i - 1) {
      }
    } else if |events| == 1 {
      assert events[1..] == [];
    }
  }

  lemma NextClash(before: seq<int>, m: seq<int>, sysextype: bool)
    requires before != []
    ensures Clash(before[0], StatusAfter(before, sysextype), m) <==>
      IsChannel(m) && !IsChannel(before) && before[0] == m[0]
  {
  }

  /** So a track of complete channel messages and sysex messages is always read back. */
  lemma CompleteRoundTrip(nomerge: bool, events: seq<Timed>, toend: nat, sysextype: bool, tail: seq<int>)
    requires TrackOk(events, 0, sysextype, nomerge) && Messages(events) && toend < LIMIT
    requires forall i :: 0 <= i < |events| ==> IsChannel(events[i].message) || events[i].message[0] == SYSEX
    ensures var d := EncodeAll(-1, 0, events, sysextype) + EndOfTrack(toend);
      ReadBack(ReadAll(nomerge, START, d + tail, |d|), [], events, LastTime(0, events) + toend, tail)
  {
    hide TrackOk, ReadAll, ReadBack, EncodeAll, EndOfTrack, NoClash;
    TrackRoundTrip(nomerge, events, toend, sysextype, tail);
    NoClashMeans(-1, 0, events, sysextype);
  }

  /** Tracks that are not read back do occur: a note-on cut short goes behind the escape, and the
      complete one after it then goes without its status byte. */
  lemma ClashOccurs()
    ensures var events := [Timed(0, [0x90, 60]), Timed(0, [0x90, 60, 64])];
      Messages(events) && TrackOk(events, 0, false, false) && !NoClash(-1, 0, events, false)
  {
    var events := [Timed(0, [0x90, 60]), Timed(0, [0x90, 60, 64])];
    assert events[1..] == [Timed(0, [0x90, 60, 64])];
    assert Carried([0x90, 60]) && Carried([0x90, 60, 64]);
    assert Messages(events);
    assert !NoClash(0x90, ESCAPE, events[1..], false);
  }

  // ---------- A phrase ----------

  /** A note whose messages the format can carry, at times that it can carry. */
  ghost predicate NoteCarried(n: Note, sysextype: bool, nomerge: bool) {
    && 0 <= n.clicks < LIMIT
    && (n.kind == NT_NOTE ==> 0 <= n.duration && n.clicks + n.duration < LIMIT)
    && (if IsBytes(n) then Carried(n.bytes) && Finished(n.bytes, sysextype, nomerge) else n.pitch < 128 && n.vol < 128)
  }

  ghost predicate PhraseCarried(notes: seq<Note>, sysextype: bool, nomerge: bool) {
    Ordered(notes) && forall i :: 0 <= i < |notes| ==> NoteCarried(notes[i], sysextype, nomerge)
  }

  lemma {:induction false} StartMember(s: seq<Emit>, j: nat)
    requires j < |s| && s[j].Start?
    ensures s[j].note in Starts(s)
  {
    if j > 0 {
      StartMember(s[1..], j - 1);
    }
  }

  lemma EmitCarried(notes: seq<Note>, j: nat, noteoff: bool, sysextype: bool, nomerge: bool)
    requires PhraseCarried(notes, sysextype, nomerge) && j < |Schedule(notes, [])|
    ensures var e := TimedOf(Schedule(notes, [])[j], noteoff);
      Carried(e.message) && Finished(e.message, sysextype, nomerge) && 0 <= e.time < LIMIT
  {
    hide Schedule, Ordered;
    var s := Schedule(notes, []);
    StartsAreNotes(notes, []);
    if s[j].Start? {
      StartMember(s, j);
      assert NoteCarried(s[j].note, sysextype, nomerge);
      StartCarried(s[j].note, noteoff, sysextype, nomerge);
    } else {
      OriginOfOff(notes, [], j);
      var k :| 0 <= k < j && k < |s| && s[k].Start? && s[k].note.kind == NT_NOTE && s[j].note == OffOf(s[k].note);
      StartMember(s, k);
      assert NoteCarried(s[k].note, sysextype, nomerge);
      OffCarried(s[k].note, noteoff, sysextype, nomerge);
    }
  }

  lemma StartCarried(n: Note, noteoff: bool, sysextype: bool, nomerge: bool)
    requires NoteCarried(n, sysextype, nomerge)
    ensures Carried(MessageOf(Start(n), noteoff)) && Finished(MessageOf(Start(n), noteoff), sysextype, nomerge)
  {
  }

  lemma OffCarried(n: Note, noteoff: bool, sysextype: bool, nomerge: bool)
    requires NoteCarried(n, sysextype, nomerge) && n.kind == NT_NOTE
    ensures Carried(MessageOf(Off(OffOf(n)), noteoff))
    ensures Finished(MessageOf(Off(OffOf(n)), noteoff), sysextype, nomerge)
  {
  }

  /** The track of such a phrase satisfies the conditions of the round trip. */
  lemma PhraseTrackOk(notes: seq<Note>, noteoff: bool, sysextype: bool, nomerge: bool)
    requires PhraseCarried(notes, sysextype, nomerge)
    ensures TrackOk(AllTimed(Schedule(notes, []), noteoff), 0, sysextype, nomerge) && Writable(notes)
  {
    hide Schedule, Ordered, MessageOf, Carried, Finished;
    var s := Schedule(notes, []);
    assert forall i :: 0 <= i < |notes| ==> NoteCarried(notes[i], sysextype, nomerge);
    ScheduleRises(notes, [], 0) by { EmptyOrdered(); }
    forall j | 0 <= j < |s|
      ensures var e := TimedOf(s[j], noteoff);
        Carried(e.message) && Finished(e.message, sysextype, nomerge) && 0 <= e.time < LIMIT
    {
      EmitCarried(notes, j, noteoff, sysextype, nomerge);
    }
    forall i | 0 <= i < |notes| && IsBytes(notes[i]) ensures Proper(notes[i].bytes) {
      CarriedProper(notes[i].bytes);
    }
  }

  lemma EmptyOrdered()
    ensures Ordered([])
  {
  }

  lemma CarriedProper(m: seq<int>)
    requires Carried(m)
    ensures Proper(m)
  {
  }

  // ---------- What is heard of a phrase ----------

  /** What a note sends, byte for byte: a full note is a note-on at its start and a note-off at its
      end, which may be written as a note-on of volume 0. */
  function Sounds(n: Note, noteoff: bool): multiset<Event> {
    match n.kind
    case NT_NOTE =>
      multiset{Message(n.clicks, [0x90 + n.chan % 16, n.pitch, n.vol]),
               Message(n.clicks + n.duration, [(if noteoff then 0x80 else 0x90) + n.chan % 16, n.pitch, 0])}
    case NT_ON => multiset{Message(n.clicks, [0x90 + n.chan % 16, n.pitch, n.vol])}
    case NT_OFF => multiset{Message(n.clicks, [0x80 + n.chan % 16, n.pitch, n.vol])}
    case NT_BYTES => multiset{Message(n.clicks, n.bytes)}
    case NT_LE3BYTES => multiset{Message(n.clicks, n.bytes)}
  }

  ghost function Heard(notes: seq<Note>, noteoff: bool): multiset<Event> {
    if notes == [] then multiset{} else Sounds(notes[0], noteoff) + Heard(notes[1..], noteoff)
  }

  /** The end of a pending note. */
  function Ending(o: Note, noteoff: bool): Event {
    Message(o.clicks, [(if noteoff then 0x80 else 0x90) + o.chan % 16, o.pitch, 0])
  }

  ghost function Endings(pend: seq<Note>, noteoff: bool): multiset<Event> {
    if pend == [] then multiset{} else multiset{Ending(pend[0], noteoff)} + Endings(pend[1..], noteoff)
  }

  ghost predicate Playable(notes: seq<Note>) {
    forall i :: 0 <= i < |notes| ==> IsBytes(notes[i]) || (notes[i].pitch < 128 && notes[i].vol < 128)
  }

  lemma ReceivedFirst(e: Emit, s: seq<Emit>, noteoff: bool)
    ensures multiset(Received(AllTimed([e] + s, noteoff))) ==
      multiset{Message(e.note.clicks, MessageOf(e, noteoff))} + multiset(Received(AllTimed(s, noteoff)))
  {
    hide MessageOf;
    assert Received(AllTimed([e] + s, noteoff)) ==
      [Message(e.note.clicks, MessageOf(e, noteoff))] + Received(AllTimed(s, noteoff));
  }

  lemma EndingsFirst(o: Note, pend: seq<Note>, noteoff: bool)
    ensures Endings([o] + pend, noteoff) == multiset{Ending(o, noteoff)} + Endings(pend, noteoff)
  {
    hide Ending;
    assert ([o] + pend)[1..] == pend;
  }

  lemma Swapped(a: multiset<Event>, b: multiset<Event>, c: multiset<Event>)
    ensures a + (b + c) == b + (a + c) && a + (b + c) == (a + c) + b
  {
  }

  lemma {:induction false} OneMoreEnding(a: seq<Note>, o: Note, b: seq<Note>, noteoff: bool)
    ensures Endings(a + ([o] + b), noteoff) == multiset{Ending(o, noteoff)} + Endings(a + b, noteoff)
  {
    hide Ending, Endings;
    if a == [] {
      assert [] + ([o] + b) == [o] + b && [] + b == b;
      EndingsFirst(o, b, noteoff);
    } else {
      var x, rest := a[0], a[1..];
      OneMoreEnding(rest, o, b, noteoff);
      EndingsFirst(x, rest + ([o] + b), noteoff);
      EndingsFirst(x, rest + b, noteoff);
      assert a + ([o] + b) == [x] + (rest + ([o] + b)) && a + b == [x] + (rest + b);
      Swapped(multiset{Ending(x, noteoff)}, multiset{Ending(o, noteoff)}, Endings(rest + b, noteoff));
    }
  }

  /** The message at the start of a note. */
  function Beginning(n: Note, noteoff: bool): Event {
    Message(n.clicks, MessageOf(Start(n), noteoff))
  }

  lemma SoundsInParts(n: Note, noteoff: bool)
    requires IsBytes(n) || (n.pitch < 128 && n.vol < 128)
    ensures Sounds(n, noteoff) == multiset{Beginning(n, noteoff)} +
      if n.kind == NT_NOTE then multiset{Ending(OffOf(n), noteoff)} else multiset{}
  {
  }

  /** Starting a note sends its first message, and leaves the rest to be sent. */
  lemma StartSounds(n: Note, pend: seq<Note>, noteoff: bool)
    requires IsBytes(n) || (n.pitch < 128 && n.vol < 128)
    ensures var pend' := if n.kind == NT_NOTE then AddPending(pend, n) else pend;
      multiset{Beginning(n, noteoff)} + Endings(pend', noteoff) == Sounds(n, noteoff) + Endings(pend, noteoff)
  {
    hide Ending, Endings, Sounds, Beginning, OffOf, Place;
    SoundsInParts(n, noteoff);
    var o, k := OffOf(n), Place(pend, OffOf(n));
    OneMoreEnding(pend[..k], o, pend[k..], noteoff);
    assert pend[..k] + pend[k..] == pend && pend[..k] + [o] + pend[k..] == pend[..k] + ([o] + pend[k..]);
    Joined(multiset{Beginning(n, noteoff)}, multiset{Ending(o, noteoff)}, Endings(pend, noteoff));
  }

  lemma Joined(a: multiset<Event>, b: multiset<Event>, c: multiset<Event>)
    ensures a + (b + c) == (a + b) + c && a + multiset{} == a
  {
  }

  /** The next message, and what remains to be heard. */
  lemma HeardNext(notes: seq<Note>, pend: seq<Note>, noteoff: bool, e: Emit, notes': seq<Note>, pend': seq<Note>)
    requires Playable(notes) && Playable(pend) && forall o :: o in pend ==> o.kind == NT_OFF
    requires notes != [] || pend != []
    requires if notes == [] || (pend != [] && pend[0].clicks <= notes[0].clicks) then
               e == Off(pend[0]) && notes' == notes && pend' == pend[1..]
             else
               e == Start(notes[0]) && notes' == notes[1..] &&
               pend' == (if notes[0].kind == NT_NOTE then AddPending(pend, notes[0]) else pend)
    ensures Heard(notes, noteoff) + Endings(pend, noteoff) ==
      multiset{Message(e.note.clicks, MessageOf(e, noteoff))} + (Heard(notes', noteoff) + Endings(pend', noteoff))
  {
    hide AddPending, Endings, Ending, Sounds, MessageOf;
    if e.Off? {
      OffSounds(e.note, noteoff);
      EndingsFirst(e.note, pend', noteoff);
      assert pend == [e.note] + pend';
      Swapped(multiset{Ending(e.note, noteoff)}, Heard(notes, noteoff), Endings(pend', noteoff));
    } else {
      StartSounds(e.note, pend, noteoff);
      var first := multiset{Beginning(e.note, noteoff)};
      Joined(Sounds(e.note, noteoff), Heard(notes', noteoff), Endings(pend, noteoff));
      Swapped(Sounds(e.note, noteoff), Heard(notes', noteoff), Endings(pend, noteoff));
      Swapped(first, Heard(notes', noteoff), Endings(pend', noteoff));
    }
  }

  /** Everything that the notes and the pending ends send is received, and nothing else. */
  lemma {:induction false} ScheduleSounds(notes: seq<Note>, pend: seq<Note>, noteoff: bool)
    requires Playable(notes) && Playable(pend) && forall o :: o in pend ==> o.kind == NT_OFF
    ensures multiset(Received(AllTimed(Schedule(notes, pend), noteoff))) ==
      Heard(notes, noteoff) + Endings(pend, noteoff)
    decreases 2 * |notes| + |pend|
  {
    hide AddPending, OffOf, Received, AllTimed, MessageOf, Sounds, Ending, Heard, Endings;
    if notes == [] && pend == [] {
      NothingHeard(noteoff);
    } else if notes == [] || (pend != [] && pend[0].clicks <= notes[0].clicks) {
      ScheduleSounds(notes, pend[1..], noteoff);
      ReceivedFirst(Off(pend[0]), Schedule(notes, pend[1..]), noteoff);
      HeardNext(notes, pend, noteoff, Off(pend[0]), notes, pend[1..]);
    } else {
      var n := notes[0];
      var pend' := if n.kind == NT_NOTE then AddPending(pend, n) else pend;
      AddedLength(pend, n);
      AddedPlayable(pend, n);
      ScheduleSounds(notes[1..], pend', noteoff);
      ReceivedFirst(Start(n), Schedule(notes[1..], pend'), noteoff);
      HeardNext(notes, pend, noteoff, Start(n), notes[1..], pend');
    }
  }

  lemma NothingHeard(noteoff: bool)
    ensures multiset(Received(AllTimed(Schedule([], []), noteoff))) == Heard([], noteoff) + Endings([], noteoff)
  {
    assert Received(AllTimed([], noteoff)) == [];
  }

  lemma OffSounds(o: Note, noteoff: bool)
    requires o.kind == NT_OFF && o.pitch < 128
    ensures Message(o.clicks, MessageOf(Off(o), noteoff)) == Ending(o, noteoff)
  {
  }

  lemma AddedPlayable(pend: seq<Note>, n: Note)
    requires Playable(pend) && (IsBytes(n) || (n.pitch < 128 && n.vol < 128))
    requires forall o :: o in pend ==> o.kind == NT_OFF
    ensures n.kind == NT_NOTE ==> Playable(AddPending(pend, n))
    ensures n.kind == NT_NOTE ==> forall o :: o in AddPending(pend, n) ==> o.kind == NT_OFF
  {
    if n.kind == NT_NOTE {
      var p := AddPending(pend, n);
      forall i | 0 <= i < |p| ensures p[i].kind == NT_OFF && p[i].pitch < 128 && p[i].vol < 128 {
        AddedMembers(pend, n);
        assert p[i] in p;
      }
    }
  }

  /** Of a whole phrase exactly the messages of its notes are received, in the order of time. */
  lemma PhraseSounds(notes: seq<Note>, noteoff: bool, sysextype: bool, nomerge: bool)
    requires PhraseCarried(notes, sysextype, nomerge)
    ensures var r := Received(AllTimed(Schedule(notes, []), noteoff));
      multiset(r) == Heard(notes, noteoff) && forall i, j :: 0 <= i < j < |r| ==> r[i].time <= r[j].time
  {
    hide Schedule, Ordered, MessageOf, Heard, Carried, Finished, Playable;
    assert forall i :: 0 <= i < |notes| ==> NoteCarried(notes[i], sysextype, nomerge);
    assert Playable(notes) && Playable([]) by { CarriedIsPlayable(notes, sysextype, nomerge); }
    ScheduleSounds(notes, [], noteoff);
    assert Endings([], noteoff) == multiset{};
    ScheduleRises(notes, [], 0) by { EmptyOrdered(); }
  }

  lemma CarriedIsPlayable(notes: seq<Note>, sysextype: bool, nomerge: bool)
    requires PhraseCarried(notes, sysextype, nomerge)
    ensures Playable(notes) && Playable([])
  {
    forall i | 0 <= i < |notes| ensures IsBytes(notes[i]) || (notes[i].pitch < 128 && notes[i].vol < 128) {
      assert NoteCarried(notes[i], sysextype, nomerge);
    }
  }

  /** Writes a phrase as a track and reads the track: the reader receives every start and every
      end of its notes, in the order of the schedule and at their times, and so exactly the messages
      of the notes and the end of the track. */
  method WriteAndRead(p: Phrase, sysextype: bool, noteoff: bool, nomerge: bool)
    returns (ok: bool, st: ReadState, rest: seq<int>, ghost log: seq<Emit>)
    requires p.Linked() && PhraseCarried(NotesOf(p.nodes), sysextype, nomerge) && p.pLeng < LIMIT
    ensures log == Schedule(NotesOf(p.nodes), []) && Messages(AllTimed(log, noteoff))
    ensures var events := AllTimed(log, noteoff); var last := LastTime(0, events);
      ok && ReadBack(Track(st, rest), [], events, last + Delta(p.pLeng, last), []) <==>
        NoClash(-1, 0, events, sysextype)
    ensures NoClash(-1, 0, AllTimed(log, noteoff), sysextype) ==>
      var n := |st.events| - 1;
      && ok && n >= 0 && st.events[n].Meta? && st.events[n].kind == 0x2f && st.events[n].bytes == []
      && multiset(st.events[..n]) == Heard(NotesOf(p.nodes), noteoff)
      && forall i, j :: 0 <= i < j < n ==> st.events[i].time <= st.events[j].time
  {
    hide PhraseCarried, TrackOk, Schedule, Heard, Received, NoClash, ReadAll, EncodeAll, EndOfTrack, Phrase.Linked,
      Writable, ReadBack;
    ghost var notes := NotesOf(p.nodes);
    PhraseTrackOk(notes, noteoff, sysextype, nomerge);
    var w := new TrackWriter(sysextype, noteoff);
    log := w.PhTrack(p);
    ghost var events := AllTimed(log, noteoff);
    ghost var toend := Delta(p.pLeng, LastTime(0, events));
    ghost var d := EncodeAll(-1, 0, events, sysextype) + EndOfTrack(toend);
    assert [] + d == d && d + [] == d && w.trktmp == d;
    LastNotNegative(events, sysextype, nomerge);
    TrackRoundTrip(nomerge, events, toend, sysextype, []);
    var r := new TrackReader(nomerge, w.trktmp, w.trksize);
    ok := r.ReadTrack();
    st, rest := r.st, r.mf;
    EofIsNotReadBack([], events, LastTime(0, events) + toend, []);
    PhraseSounds(notes, noteoff, sysextype, nomerge);
    if NoClash(-1, 0, events, sysextype) {
      BackIs(Track(st, rest), events, LastTime(0, events) + toend);
    }
  }

  lemma BackIs(r: TrackResult, events: seq<Timed>, end: int)
    requires ReadBack(r, [], events, end, [])
    ensures r.Track? && r.state.events == Received(events) + [Meta(end, 0x2f, [])]
  {
    assert [] + Received(events) == Received(events);
  }

  lemma EofIsNotReadBack(before: seq<Event>, events: seq<Timed>, end: int, tail: seq<int>)
    ensures !ReadBack(PrematureEof, before, events, end, tail)
  {
  }

  lemma LastNotNegative(events: seq<Timed>, sysextype: bool, nomerge: bool)
    requires TrackOk(events, 0, sysextype, nomerge)
    ensures LastTime(0, events) >= 0
  {
  }
}
