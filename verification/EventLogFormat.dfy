/** The log file format of upstream/lcm/eventlog.c: records that a reader can find
    again from any offset by looking for a magic word. */
module EventLogFormat {
  import opened Bytes
  import opened Wrappers

  const MAGIC: seq<byte> := [0xED, 0xA1, 0xDA, 0x01]
  const HEADER := 28   // magic, event number, timestamp, two lengths

  datatype Event = Event(eventnum: int, timestamp: int, channel: seq<byte>, data: seq<byte>)

  /** What lcm_eventlog_event_t can hold. */
  predicate Encodable(e: Event) {
    Fits(e.eventnum, 8) && Fits(e.timestamp, 8) && |e.channel| < 0x8000_0000 && |e.data| < 0x8000_0000
  }

  /** And the reader's assert lets through. */
  predicate WellFormed(e: Event) { Encodable(e) && |e.channel| < 1000 }

  function Header(e: Event): (r: seq<byte>)
    ensures |r| == HEADER
  {
    MAGIC + EncodeInt(e.eventnum, 8) + EncodeInt(e.timestamp, 8) + EncodeInt(|e.channel|, 4) + EncodeInt(|e.data|, 4)
  }

  /** The size the logger accounts for a record. */
  function EventLength(e: Event): nat { HEADER + |e.channel| + |e.data| }

  function Record(e: Event): (r: seq<byte>)
    ensures |r| == EventLength(e)
  {
    Header(e) + e.channel + e.data
  }

  function LogBytes(events: seq<Event>): seq<byte> {
    if events == [] then [] else Record(events[0]) + LogBytes(events[1..])
  }

  // ----- reading -----

  predicate MagicAt(file: seq<byte>, p: nat) {
    p + 4 <= |file| && file[p..p + 4] == MAGIC
  }

  /** The first magic word at or after p. */
  function FindMagic(file: seq<byte>, p: nat): (r: Option<nat>)
    ensures r.Some? ==> p <= r.value && MagicAt(file, r.value) && forall i :: p <= i < r.value ==> !MagicAt(file, i)
    ensures r.None? ==> forall i :: p <= i ==> !MagicAt(file, i)
    decreases |file| - p
  {
    if p + 4 > |file| then None else if MagicAt(file, p) then Some(p) else FindMagic(file, p + 1)
  }

  datatype ReadResult = Eof | AssertFailed | Got(event: Event)

  /** fread of an n-byte integer: short reads leave the zero from calloc. */
  function FieldAt(file: seq<byte>, p: nat, n: nat): int {
    if p + n <= |file| then DecodeInt(file[p..p + n]) else 0
  }

  /** The read position after asking for n bytes at p. */
  function After(file: seq<byte>, p: nat, n: nat): nat {
    if p + n <= |file| then p + n else if p <= |file| then |file| else p
  }

  /** The header fields as read, and where the channel begins. */
  datatype Fields = Fields(eventnum: int, timestamp: int, channellen: int, datalen: int, body: nat)

  function FieldsFrom(file: seq<byte>, p: nat): Fields {
    var p1 := After(file, p, 8);
    var p2 := After(file, p1, 8);
    var p3 := After(file, p2, 4);
    Fields(FieldAt(file, p, 8), FieldAt(file, p1, 8), FieldAt(file, p2, 4), FieldAt(file, p3, 4), After(file, p3, 4))
  }

  /** Channel and data behind the header. */
  function ReadPayload(file: seq<byte>, h: Fields): (ReadResult, nat) {
    if h.channellen >= 1000 then (AssertFailed, h.body)
    else if h.channellen < 0 || h.datalen < 0 || h.body + h.channellen + h.datalen > |file| then (Eof, |file|)
    else
      (Got(Event(h.eventnum, h.timestamp,
                 file[h.body..h.body + h.channellen], file[h.body + h.channellen..h.body + h.channellen + h.datalen])),
       h.body + h.channellen + h.datalen)
  }

  /** The rest of lcm_eventlog_read_next_event once the magic word at q is read:
      the result and the new offset. */
  function ReadBody(file: seq<byte>, q: nat): (ReadResult, nat) {
    ReadPayload(file, FieldsFrom(file, q + 4))
  }

  /** lcm_eventlog_read_next_event from offset p. */
  function ReadAt(file: seq<byte>, p: nat): (ReadResult, nat) {
    match FindMagic(file, p)
    case None => (Eof, if p <= |file| then |file| else p)
    case Some(q) => ReadBody(file, q)
  }

  /** All events read from offset p until the reader stops. */
  function ReadAll(file: seq<byte>, p: nat): seq<Event>
    decreases |file| - p
  {
    var (r, next) := ReadAt(file, p);
    if r.Got? && p < next <= |file| then [r.event] + ReadAll(file, next) else []
  }

  // ----- the round trip -----

  lemma HeaderSlices(a: seq<byte>, b: seq<byte>, c: seq<byte>, d: seq<byte>, e: seq<byte>)
    requires |a| == |d| == |e| == 4 && |b| == |c| == 8
    ensures var h := a + b + c + d + e;
      h[..4] == a && h[4..12] == b && h[12..20] == c && h[20..24] == d && h[24..28] == e
  {}

  lemma HeaderFields(e: Event)
    requires Encodable(e)
    ensures Header(e)[..4] == MAGIC
    ensures DecodeInt(Header(e)[4..12]) == e.eventnum && DecodeInt(Header(e)[12..20]) == e.timestamp
    ensures DecodeInt(Header(e)[20..24]) == |e.channel| && DecodeInt(Header(e)[24..28]) == |e.data|
  {
    Pow256Values();
    IntRoundTrip(e.eventnum, 8);
    IntRoundTrip(e.timestamp, 8);
    IntRoundTrip(|e.channel|, 4);
    IntRoundTrip(|e.data|, 4);
    hide EncodeInt; hide DecodeInt; hide Pow256;
    HeaderSlices(MAGIC, EncodeInt(e.eventnum, 8), EncodeInt(e.timestamp, 8), EncodeInt(|e.channel|, 4),
      EncodeInt(|e.data|, 4));
  }

  /** file holds the record of e at offset q. */
  predicate RecordAt(file: seq<byte>, q: nat, e: Event) {
    q + EventLength(e) <= |file| && file[q..q + EventLength(e)] == Record(e)
  }

  lemma SliceOfSlice(file: seq<byte>, q: nat, r: seq<byte>, i: nat, j: nat)
    requires q + |r| <= |file| && file[q..q + |r|] == r && i <= j <= |r|
    ensures file[q + i..q + j] == r[i..j]
  {
    var s := file[q..q + |r|];
    forall k | i <= k < j ensures file[q + k] == r[k] { assert s[k] == file[q + k]; }
  }

  lemma RecordParts(e: Event)
    ensures Record(e)[..HEADER] == Header(e)
    ensures Record(e)[HEADER..HEADER + |e.channel|] == e.channel && Record(e)[HEADER + |e.channel|..] == e.data
  {
    var h := Header(e);
    hide Header;
    assert (h + e.channel + e.data)[..HEADER] == h;
  }

  lemma HeaderAt(file: seq<byte>, q: nat, e: Event)
    requires RecordAt(file, q, e)
    ensures q + HEADER <= |file| && file[q..q + HEADER] == Header(e)
  {
    RecordParts(e);
    hide Record; hide Header;
    SliceOfSlice(file, q, Record(e), 0, HEADER);
  }

  lemma HeaderSlice(file: seq<byte>, q: nat, e: Event, i: nat, j: nat)
    requires q + HEADER <= |file| && file[q..q + HEADER] == Header(e) && i <= j <= HEADER
    ensures file[q + i..q + j] == Header(e)[i..j]
  {
    hide Header;
    SliceOfSlice(file, q, Header(e), i, j);
  }

  lemma FieldsAt(file: seq<byte>, q: nat, e: Event)
    requires Encodable(e) && RecordAt(file, q, e)
    ensures MagicAt(file, q)
    ensures FieldAt(file, q + 4, 8) == e.eventnum && FieldAt(file, q + 12, 8) == e.timestamp
    ensures FieldAt(file, q + 20, 4) == |e.channel| && FieldAt(file, q + 24, 4) == |e.data|
  {
    HeaderFields(e);
    HeaderAt(file, q, e);
    hide EncodeInt; hide DecodeInt; hide Header; hide Record; hide RecordAt; hide Encodable;
    HeaderSlice(file, q, e, 0, 4); HeaderSlice(file, q, e, 4, 12); HeaderSlice(file, q, e, 12, 20);
    HeaderSlice(file, q, e, 20, 24); HeaderSlice(file, q, e, 24, 28);
  }

  lemma BodyAt(file: seq<byte>, q: nat, e: Event)
    requires RecordAt(file, q, e)
    ensures q + HEADER + |e.channel| + |e.data| <= |file|
    ensures file[q + HEADER..q + HEADER + |e.channel|] == e.channel
    ensures file[q + HEADER + |e.channel|..q + HEADER + |e.channel| + |e.data|] == e.data
  {
    RecordParts(e);
    hide Record; hide Header;
    SliceOfSlice(file, q, Record(e), HEADER, HEADER + |e.channel|);
    SliceOfSlice(file, q, Record(e), HEADER + |e.channel|, |Record(e)|);
  }

  lemma FieldsOfRecord(file: seq<byte>, q: nat, e: Event)
    requires Encodable(e) && RecordAt(file, q, e)
    ensures MagicAt(file, q)
    ensures FieldsFrom(file, q + 4) == Fields(e.eventnum, e.timestamp, |e.channel|, |e.data|, q + HEADER)
  {
    FieldsAt(file, q, e);
    BodyAt(file, q, e);
    hide FieldAt; hide Record; hide MagicAt; hide RecordAt; hide Encodable;
    assert After(file, q + 4, 8) == q + 12 && After(file, q + 12, 8) == q + 20;
    assert After(file, q + 20, 4) == q + 24 && After(file, q + 24, 4) == q + 28;
  }

  lemma PayloadOfRecord(file: seq<byte>, q: nat, e: Event)
    requires |e.channel| < 1000 && RecordAt(file, q, e)
    ensures ReadPayload(file, Fields(e.eventnum, e.timestamp, |e.channel|, |e.data|, q + HEADER))
         == (Got(e), q + EventLength(e))
  {
    BodyAt(file, q, e);
    hide RecordAt;
  }

  /** Reading a record gives its event and stops right behind it. */
  lemma ReadsRecord(file: seq<byte>, q: nat, e: Event)
    requires WellFormed(e) && RecordAt(file, q, e)
    ensures MagicAt(file, q) && ReadBody(file, q) == (Got(e), q + EventLength(e))
  {
    hide FieldsFrom; hide MagicAt; hide RecordAt; hide Encodable; hide ReadPayload; hide EventLength;
    FieldsOfRecord(file, q, e);
    PayloadOfRecord(file, q, e);
  }

  lemma MagicFits(file: seq<byte>, p: nat)
    requires MagicAt(file, p)
    ensures FindMagic(file, p) == Some(p)
  {}

  /** A record with a channel of 1000 bytes and more fails the reader's assert. */
  lemma LongChannelAborts(file: seq<byte>, q: nat, e: Event)
    requires Encodable(e) && RecordAt(file, q, e)
    ensures ReadAt(file, q) ==
      if |e.channel| < 1000 then (Got(e), q + 28 + |e.channel| + |e.data|) else (AssertFailed, q + 28)
  {
    hide FieldsFrom; hide MagicAt; hide RecordAt; hide Encodable;
    FieldsOfRecord(file, q, e);
    MagicFits(file, q);
    if |e.channel| < 1000 { ReadsRecord(file, q, e); }
  }

  /** From p on, the file is the records of these events and nothing else. */
  ghost predicate IsLog(file: seq<byte>, p: nat, events: seq<Event>) {
    && p <= |file| && file[p..] == LogBytes(events)
    && forall i :: 0 <= i < |events| ==> WellFormed(events[i])
  }

  lemma SuffixSplit(file: seq<byte>, p: nat, a: seq<byte>, b: seq<byte>)
    requires p <= |file| && file[p..] == a + b
    ensures p + |a| <= |file| && file[p..p + |a|] == a && file[p + |a|..] == b
  {
    var t := file[p..];
    assert t[..|a|] == a && t[|a|..] == b;
    assert file[p..p + |a|] == t[..|a|] && file[p + |a|..] == t[|a|..];
  }

  lemma IsLogStep(file: seq<byte>, p: nat, events: seq<Event>)
    requires IsLog(file, p, events) && events != []
    ensures WellFormed(events[0]) && RecordAt(file, p, events[0])
    ensures p + EventLength(events[0]) <= |file| && IsLog(file, p + EventLength(events[0]), events[1..])
  {
    hide Record; hide WellFormed; hide EventLength;
    SuffixSplit(file, p, Record(events[0]), LogBytes(events[1..]));
  }

  lemma EmptyLog(file: seq<byte>, p: nat)
    requires IsLog(file, p, [])
    ensures p == |file| && FindMagic(file, p) == None
  {}

  /** A log reads back as exactly the events written, whatever was before. */
  lemma {:induction false} LogRoundTrip(file: seq<byte>, p: nat, events: seq<Event>)
    requires IsLog(file, p, events)
    ensures ReadAll(file, p) == events
    decreases |events|
  {
    hide RecordAt; hide ReadBody; hide MagicAt; hide WellFormed; hide IsLog;
    if events == [] {
      EmptyLog(file, p);
    } else {
      IsLogStep(file, p, events);
      ReadsRecord(file, p, events[0]);
      assert FindMagic(file, p) == Some(p) by { MagicFits(file, p); }
      LogRoundTrip(file, p + EventLength(events[0]), events[1..]);
    }
  }

  /** Writing one more event appends its record. */
  lemma {:induction false} LogBytesSnoc(events: seq<Event>, e: Event)
    ensures LogBytes(events + [e]) == LogBytes(events) + Record(e)
    decreases |events|
  {
    hide Record;
    if events == [] {
      assert [e][1..] == [] && events + [e] == [e];
      assert LogBytes([]) == [];
    } else {
      assert (events + [e])[1..] == events[1..] + [e] && (events + [e])[0] == events[0];
      LogBytesSnoc(events[1..], e);
    }
  }

  /** A complete log, read from offset 0, gives back exactly what was written. */
  lemma WrittenLogReadsBack(events: seq<Event>)
    requires forall i :: 0 <= i < |events| ==> WellFormed(events[i])
    ensures ReadAll(LogBytes(events), 0) == events
  {
    var file := LogBytes(events);
    assert file[0..] == file;
    assert IsLog(file, 0, events);
    hide LogBytes; hide IsLog; hide WellFormed; hide ReadAll;
    LogRoundTrip(file, 0, events);
  }

  // ----- reading from the middle -----

  /** Where the records start. */
  function Starts(p: nat, events: seq<Event>): set<nat>
    decreases |events|
  {
    if events == [] then {} else {p} + Starts(p + EventLength(events[0]), events[1..])
  }

  lemma {:induction false} StartsBeyond(p: nat, events: seq<Event>, q: nat)
    requires q in Starts(p, events)
    ensures q >= p
    decreases |events|
  {
    if q != p { StartsBeyond(p + EventLength(events[0]), events[1..], q); }
  }

  /** The magic word occurs at record starts only. */
  ghost predicate Clean(file: seq<byte>, p: nat, events: seq<Event>) {
    IsLog(file, p, events) && forall q :: p <= q && MagicAt(file, q) ==> q in Starts(p, events)
  }

  lemma CleanTail(file: seq<byte>, p: nat, events: seq<Event>)
    requires Clean(file, p, events) && events != []
    ensures Clean(file, p + EventLength(events[0]), events[1..])
  {
    hide MagicAt; hide RecordAt; hide WellFormed; hide IsLog;
    IsLogStep(file, p, events);
  }

  /** The events whose records start at or after `from`. */
  function EventsFrom(p: nat, events: seq<Event>, from: nat): seq<Event>
    decreases |events|
  {
    if events == [] || p >= from then events else EventsFrom(p + EventLength(events[0]), events[1..], from)
  }

  lemma EventsFromStart(p: nat, events: seq<Event>, from: nat)
    requires from <= p
    ensures EventsFrom(p, events, from) == events
  {}

  lemma NoMagicNoRead(file: seq<byte>, from: nat)
    requires forall q :: from <= q ==> !MagicAt(file, q)
    ensures ReadAll(file, from) == []
  {
    hide MagicAt;
    assert FindMagic(file, from) == None;
  }

  lemma ReadAdvances(file: seq<byte>, p: nat)
    requires ReadAt(file, p).0.Got?
    ensures p < ReadAt(file, p).1 <= |file|
  {
    hide FieldAt; hide MagicAt;
  }

  /** Reading depends on the offset only through the magic word it leads to. */
  lemma SameRead(file: seq<byte>, from: nat, to: nat)
    requires from <= to <= |file| && FindMagic(file, from) == FindMagic(file, to)
    ensures ReadAt(file, from) == ReadAt(file, to) && ReadAll(file, from) == ReadAll(file, to)
  {
    hide MagicAt;
    assert ReadAt(file, from) == ReadAt(file, to);
    hide FindMagic; hide ReadAt;
    if ReadAt(file, to).0.Got? { ReadAdvances(file, to); }
  }

  lemma {:induction false} FindMagicSkips(file: seq<byte>, from: nat, to: nat)
    requires from <= to && forall q :: from <= q < to ==> !MagicAt(file, q)
    ensures FindMagic(file, from) == FindMagic(file, to)
    decreases if from < to then to - from else 0
  {
    hide MagicAt;
    if from < to && from + 4 <= |file| { FindMagicSkips(file, from + 1, to); }
  }

  /** From inside a record the next magic word is the next record. */
  lemma SkipsToNext(file: seq<byte>, p: nat, events: seq<Event>, from: nat)
    requires Clean(file, p, events) && events != [] && p < from < p + EventLength(events[0]) <= |file|
    ensures FindMagic(file, from) == FindMagic(file, p + EventLength(events[0]))
    ensures ReadAll(file, from) == ReadAll(file, p + EventLength(events[0]))
  {
    hide RecordAt; hide MagicAt; hide WellFormed; hide ReadAll; hide ReadBody; hide IsLog; hide EventLength;
    var p' := p + EventLength(events[0]);
    forall q | from <= q < p' ensures !MagicAt(file, q) {
      if MagicAt(file, q) {
        assert q in Starts(p, events) && q != p;
        StartsBeyond(p', events[1..], q);
      }
    }
    FindMagicSkips(file, from, p');
    SameRead(file, from, p');
  }

  /** In a clean log, reading from any offset gives exactly the events that
      start there or later. */
  lemma {:induction false} ResynchronisedRead(file: seq<byte>, p: nat, events: seq<Event>, from: nat)
    requires Clean(file, p, events) && p <= from
    ensures ReadAll(file, from) == EventsFrom(p, events, from)
    decreases |events|
  {
    hide RecordAt; hide ReadAll; hide MagicAt; hide WellFormed; hide IsLog; hide EventLength;
    if events == [] {
      NoMagicNoRead(file, from);
    } else {
      var p' := p + EventLength(events[0]);
      CleanTail(file, p, events);
      if from == p {
        LogRoundTrip(file, p, events);
      } else if from >= p' {
        ResynchronisedRead(file, p', events[1..], from);
      } else {
        IsLogStep(file, p, events);
        SkipsToNext(file, p, events, from);
        LogRoundTrip(file, p', events[1..]);
        EventsFromStart(p', events[1..], from);
      }
    }
  }
}
