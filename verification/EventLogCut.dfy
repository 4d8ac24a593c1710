/** Logs whose last record was cut off, as a crash or a full disk leaves them. */
module EventLogCut {
  import opened Bytes
  import opened EventLogFormat
  import opened JavaLog
  import opened Wrappers

  /** What the C reader makes of the first c bytes of a record: the fields that are not
      there are zero, so a cut inside the header leaves an event without channel and data,
      unless a longer channel is announced. */
  function Leftover(e: Event, c: nat): seq<Event> {
    if 4 <= c < 24 || (24 <= c < 28 && e.channel == []) then
      [Event(if 12 <= c then e.eventnum else 0, if 20 <= c then e.timestamp else 0, [], [])]
    else []
  }

  /** The file ends c bytes into the record of e at q. */
  predicate CutAt(file: seq<byte>, q: nat, e: Event, c: nat) {
    c < EventLength(e) && q + c == |file| && file[q..] == Record(e)[..c]
  }

  lemma SameSlice(file: seq<byte>, record: seq<byte>, header: seq<byte>, q: nat, c: nat, i: nat, j: nat)
    requires q + c == |file| && c <= |record| && file[q..] == record[..c] && |header| <= |record|
    requires record[..|header|] == header && i <= j <= c && j <= |header|
    ensures file[q + i..q + j] == header[i..j]
  {
    forall k | i <= k < j ensures file[q + k] == header[k] {
      assert file[q..][k] == record[..c][k] && record[..|header|][k] == record[k];
    }
  }

  lemma CutHeader(file: seq<byte>, q: nat, e: Event, c: nat, i: nat, j: nat)
    requires CutAt(file, q, e, c) && i <= j <= c && j <= HEADER
    ensures file[q + i..q + j] == Header(e)[i..j]
  {
    RecordParts(e);
    hide Header; hide Record;
    SameSlice(file, Record(e), Header(e), q, c, i, j);
  }

  lemma CutField(file: seq<byte>, q: nat, e: Event, c: nat, i: nat, n: nat)
    requires CutAt(file, q, e, c) && i <= c && i + n <= HEADER
    ensures FieldAt(file, q + i, n) == if i + n <= c then DecodeInt(Header(e)[i..i + n]) else 0
    ensures After(file, q + i, n) == if i + n <= c then q + i + n else |file|
  {
    hide Header; hide Record; hide DecodeInt; hide EventLength;
    if i + n <= c { CutHeader(file, q, e, c, i, i + n); }
  }

  lemma CutNumbers(file: seq<byte>, q: nat, e: Event, c: nat)
    requires Encodable(e) && CutAt(file, q, e, c) && 4 <= c
    ensures FieldAt(file, q + 4, 8) == if 12 <= c then e.eventnum else 0
    ensures 12 <= c ==> FieldAt(file, q + 12, 8) == if 20 <= c then e.timestamp else 0
    ensures 20 <= c ==> FieldAt(file, q + 20, 4) == if 24 <= c then |e.channel| else 0
    ensures 24 <= c ==> FieldAt(file, q + 24, 4) == if 28 <= c then |e.data| else 0
  {
    hide Header; hide Record; hide CutAt; hide DecodeInt; hide Encodable; hide FieldAt; hide After;
    HeaderFields(e);
    CutField(file, q, e, c, 4, 8);
    if 12 <= c { CutField(file, q, e, c, 12, 8); }
    if 20 <= c { CutField(file, q, e, c, 20, 4); }
    if 24 <= c { CutField(file, q, e, c, 24, 4); }
  }

  lemma CutPositions(file: seq<byte>, q: nat, e: Event, c: nat)
    requires CutAt(file, q, e, c) && 4 <= c
    ensures After(file, q + 4, 8) == if 12 <= c then q + 12 else |file|
    ensures 12 <= c ==> After(file, q + 12, 8) == if 20 <= c then q + 20 else |file|
    ensures 20 <= c ==> After(file, q + 20, 4) == if 24 <= c then q + 24 else |file|
    ensures 24 <= c ==> After(file, q + 24, 4) == if 28 <= c then q + 28 else |file|
    ensures forall n :: 0 < n ==> FieldAt(file, |file|, n) == 0 && After(file, |file|, n) == |file|
  {
    hide Record;
  }

  lemma CutFields(file: seq<byte>, q: nat, e: Event, c: nat)
    requires Encodable(e) && CutAt(file, q, e, c) && 4 <= c
    ensures FieldsFrom(file, q + 4) == Fields(
      if 12 <= c then e.eventnum else 0, if 20 <= c then e.timestamp else 0,
      if 24 <= c then |e.channel| else 0, if 28 <= c then |e.data| else 0, if 28 <= c then q + 28 else |file|)
  {
    hide Record; hide CutAt; hide DecodeInt; hide Encodable; hide FieldAt; hide After;
    CutNumbers(file, q, e, c);
    CutPositions(file, q, e, c);
  }

  lemma HeaderStart(e: Event)
    ensures Header(e)[0..4] == MAGIC
  {}

  lemma CutMagic(file: seq<byte>, q: nat, e: Event, c: nat)
    requires CutAt(file, q, e, c)
    ensures c < 4 ==> FindMagic(file, q) == None
    ensures 4 <= c ==> MagicAt(file, q) && FindMagic(file, q) == Some(q)
  {
    hide Record; hide Header;
    if 4 <= c {
      CutHeader(file, q, e, c, 0, 4);
      assert Header(e)[0..4] == MAGIC by { HeaderStart(e); }
    }
  }

  lemma EmptyPayload(file: seq<byte>, h: Fields)
    requires h.channellen == 0 && h.datalen == 0 && h.body == |file|
    ensures ReadPayload(file, h) == (Got(Event(h.eventnum, h.timestamp, [], [])), |file|)
  {
    assert file[|file|..|file|] == [];
  }

  lemma NoPayload(file: seq<byte>, h: Fields)
    requires 0 <= h.channellen < 1000 && 0 <= h.datalen && h.body + h.channellen + h.datalen > |file|
    ensures ReadPayload(file, h) == (Eof, |file|)
  {}

  lemma ReadsLeftover(file: seq<byte>, q: nat, e: Event, c: nat)
    requires WellFormed(e) && CutAt(file, q, e, c)
    ensures if Leftover(e, c) == [] then !ReadAt(file, q).0.Got?
      else ReadAt(file, q) == (Got(Leftover(e, c)[0]), |file|) && q < |file|
  {
    hide FieldsFrom; hide MagicAt; hide Record; hide FindMagic; hide Encodable; hide ReadPayload;
    CutMagic(file, q, e, c);
    if 4 <= c {
      CutFields(file, q, e, c);
      var h := FieldsFrom(file, q + 4);
      if Leftover(e, c) == [] { NoPayload(file, h); } else { EmptyPayload(file, h); }
    }
  }

  lemma LeftoverShort(e: Event, c: nat)
    ensures |Leftover(e, c)| <= 1
  {}

  lemma AtEnd(file: seq<byte>)
    ensures ReadAll(file, |file|) == []
  {
    assert FindMagic(file, |file|) == None;
  }

  lemma CutReads(file: seq<byte>, q: nat, e: Event, c: nat)
    requires WellFormed(e) && CutAt(file, q, e, c)
    ensures ReadAll(file, q) == Leftover(e, c)
  {
    hide ReadAt; hide Leftover; hide WellFormed; hide CutAt;
    ReadsLeftover(file, q, e, c);
    LeftoverShort(e, c);
    AtEnd(file);
  }

  /** The records of these events from q on, and then c bytes of one more. */
  ghost predicate CutLog(file: seq<byte>, q: nat, events: seq<Event>, e: Event, c: nat) {
    && q <= |file| && c < EventLength(e) && file[q..] == LogBytes(events) + Record(e)[..c]
    && (forall i :: 0 <= i < |events| ==> WellFormed(events[i])) && WellFormed(e)
  }

  lemma CutLogStep(file: seq<byte>, q: nat, events: seq<Event>, e: Event, c: nat)
    requires CutLog(file, q, events, e, c)
    ensures events == [] ==> CutAt(file, q, e, c)
    ensures events != [] ==> RecordAt(file, q, events[0]) && WellFormed(events[0])
    ensures events != [] ==> CutLog(file, q + EventLength(events[0]), events[1..], e, c)
  {
    hide Record; hide WellFormed; hide EventLength;
    if events == [] {
      assert LogBytes(events) + Record(e)[..c] == Record(e)[..c];
    } else {
      assert LogBytes(events) + Record(e)[..c] == Record(events[0]) + (LogBytes(events[1..]) + Record(e)[..c]);
      SuffixSplit(file, q, Record(events[0]), LogBytes(events[1..]) + Record(e)[..c]);
    }
  }

  lemma ReadAllStep(file: seq<byte>, q: nat, e: Event)
    requires WellFormed(e) && RecordAt(file, q, e)
    ensures ReadAll(file, q) == [e] + ReadAll(file, q + EventLength(e))
  {
    hide ReadBody; hide MagicAt; hide WellFormed;
    ReadsRecord(file, q, e);
    MagicFits(file, q);
  }

  lemma IsWellFormed(file: seq<byte>, q: nat, events: seq<Event>, e: Event, c: nat)
    requires CutLog(file, q, events, e, c)
    ensures WellFormed(e)
  {}

  /** A log that breaks off in the middle of a record gives the events before it, and one
      more exactly if it breaks off inside the header, behind the magic word, before the
      length of a channel that has a name is there. */
  lemma {:induction false} CutLogReadsBack(file: seq<byte>, q: nat, events: seq<Event>, e: Event, c: nat)
    requires CutLog(file, q, events, e, c)
    ensures ReadAll(file, q) == events + Leftover(e, c)
    decreases |events|
  {
    hide *;
    CutLogStep(file, q, events, e, c);
    if events == [] {
      IsWellFormed(file, q, events, e, c);
      CutReads(file, q, e, c);
      assert events + Leftover(e, c) == Leftover(e, c);
    } else {
      ReadAllStep(file, q, events[0]);
      CutLogReadsBack(file, q + EventLength(events[0]), events[1..], e, c);
      assert [events[0]] + (events[1..] + Leftover(e, c)) == events + Leftover(e, c);
    }
  }

  // ----- the Java reader -----

  lemma JavaCutFields(file: seq<byte>, q: nat, e: Event, c: nat)
    requires WellFormed(e) && CutAt(file, q, e, c) && 4 <= c
    ensures var h := FieldsAfter(file, q + 4);
      && (c < 28 ==> h == None)
      && (28 <= c ==> h == Some(JavaFields(e.eventnum, e.timestamp, |e.channel|, |e.data|)))
      && (28 <= c ==> WithPayload(file, q + 28, h.value) == None)
  {
    hide Record; hide DecodeInt; hide Encodable;
    CutNumbers(file, q, e, c);
  }

  lemma JavaCutReads(file: seq<byte>, q: nat, e: Event, c: nat)
    requires WellFormed(e) && Accepted(e) && CutAt(file, q, e, c)
    ensures JavaReadAt(file, q) == None
  {
    hide FieldsAfter; hide WithPayload; hide MagicAt; hide CutAt; hide FindMagic; hide WellFormed;
    CutMagic(file, q, e, c);
    if 4 <= c {
      JavaFromUnfolds(file, q + 4);
      JavaCutFields(file, q, e, c);
    }
  }

  lemma JavaReadAllStep(file: seq<byte>, q: nat, e: Event)
    requires WellFormed(e) && RecordAt(file, q, e) && Accepted(e)
    ensures JavaReadAll(file, q) == [e] + JavaReadAll(file, q + EventLength(e))
  {
    hide JavaReadAt; hide WellFormed; hide Record; hide MagicAt;
    JavaAtRecord(file, q, e);
  }

  lemma JavaNothing(file: seq<byte>, q: nat)
    requires JavaReadAt(file, q) == None
    ensures JavaReadAll(file, q) == []
  {}

  /** The Java reader gives the events before the cut and nothing more, wherever the log
      breaks off. */
  lemma {:induction false} JavaCutLogReadsBack(file: seq<byte>, q: nat, events: seq<Event>, e: Event, c: nat)
    requires CutLog(file, q, events, e, c) && Accepted(e) && forall i :: 0 <= i < |events| ==> Accepted(events[i])
    ensures JavaReadAll(file, q) == events
    decreases |events|
  {
    hide *;
    CutLogStep(file, q, events, e, c);
    if events == [] {
      IsWellFormed(file, q, events, e, c);
      JavaCutReads(file, q, e, c);
      JavaNothing(file, q);
    } else {
      JavaReadAllStep(file, q, events[0]);
      JavaCutLogReadsBack(file, q + EventLength(events[0]), events[1..], e, c);
    }
  }
}
