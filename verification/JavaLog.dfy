/** upstream/lcm-java/lcm/logging/Log.java over the buffered file. */
module JavaLog {
  import opened Buffers
  import opened Bytes
  import opened BufferedFile
  import opened EventLogFormat
  import opened MagicRegister
  import opened Wrappers

  const MAX_CHANNEL := 256
  const MAX_DATA := 16 * 1024 * 1024

  /** The lengths Log.readNext accepts. */
  predicate LengthsAccepted(channellen: int, datalen: int) {
    0 < channellen < MAX_CHANNEL && 0 < datalen < MAX_DATA
  }

  predicate Accepted(e: Event) { LengthsAccepted(|e.channel|, |e.data|) }

  /** The header fields behind the magic word. */
  datatype JavaFields = JavaFields(eventNumber: int, utime: int, channellen: int, datalen: int)

  function FieldsAfter(file: seq<byte>, p: nat): Option<JavaFields> {
    if p + 24 > |file| then None
    else Some(JavaFields(DecodeInt(file[p..p + 8]), DecodeInt(file[p + 8..p + 16]),
                     DecodeInt(file[p + 16..p + 20]), DecodeInt(file[p + 20..p + 24])))
  }

  /** Channel and data of the accepted lengths, if the file holds them. */
  function PayloadAt(file: seq<byte>, p: nat, h: JavaFields): Option<Event> {
    if h.channellen < 0 || h.datalen < 0 || p + h.channellen + h.datalen > |file| then None
    else Some(Event(h.eventNumber, h.utime, file[p..p + h.channellen],
      file[p + h.channellen..p + h.channellen + h.datalen]))
  }

  function WithPayload(file: seq<byte>, p: nat, h: JavaFields): Option<(Event, nat)> {
    var e := PayloadAt(file, p, h);
    if e.Some? then Some((e.value, p + h.channellen + h.datalen)) else None
  }

  /** Log.readNext from offset p: the event and the new offset, or EOFException. */
  function JavaReadAt(file: seq<byte>, p: nat): Option<(Event, nat)>
    decreases |file| - p, 1
  {
    match FindMagic(file, p)
    case None => None
    case Some(q) => JavaFrom(file, q + 4)
  }

  /** With the magic word read up to p; a header with other lengths is skipped,
      and the search goes on behind it. */
  function JavaFrom(file: seq<byte>, p: nat): Option<(Event, nat)>
    decreases |file| - p, 0
  {
    match FieldsAfter(file, p)
    case None => None
    case Some(h) =>
      if !LengthsAccepted(h.channellen, h.datalen) then JavaReadAt(file, p + 24)
      else WithPayload(file, p + 24, h)
  }

  function JavaReadAll(file: seq<byte>, p: nat): seq<Event>
    decreases |file| - p
  {
    match JavaReadAt(file, p)
    case None => []
    case Some((e, next)) => if p < next <= |file| then [e] + JavaReadAll(file, next) else []
  }

  // ----- the two readers on the same log -----

  function AcceptedOf(events: seq<Event>): seq<Event> {
    if events == [] then []
    else if Accepted(events[0]) then [events[0]] + AcceptedOf(events[1..])
    else AcceptedOf(events[1..])
  }

  lemma FieldsAfterRecord(file: seq<byte>, q: nat, e: Event)
    requires WellFormed(e) && RecordAt(file, q, e)
    ensures q + HEADER <= |file| && MagicAt(file, q)
    ensures FieldsAfter(file, q + 4) == Some(JavaFields(e.eventnum, e.timestamp, |e.channel|, |e.data|))
  {
    FieldsAt(file, q, e);
    hide DecodeInt; hide RecordAt; hide WellFormed; hide MagicAt;
    HeaderAt(file, q, e);
  }

  lemma PayloadAfterRecord(file: seq<byte>, q: nat, e: Event)
    requires RecordAt(file, q, e)
    ensures WithPayload(file, q + HEADER, JavaFields(e.eventnum, e.timestamp, |e.channel|, |e.data|))
         == Some((e, q + EventLength(e)))
  {
    BodyAt(file, q, e);
    hide RecordAt;
  }

  lemma JavaFromUnfolds(file: seq<byte>, p: nat)
    ensures var h := FieldsAfter(file, p);
      JavaFrom(file, p) ==
      if h == None then None
      else if LengthsAccepted(h.value.channellen, h.value.datalen) then WithPayload(file, p + 24, h.value)
      else JavaReadAt(file, p + 24)
  {
    hide FieldsAfter; hide WithPayload; hide JavaReadAt;
  }

  /** At a record the Java reader takes the event or moves on behind its header. */
  lemma JavaAtRecord(file: seq<byte>, q: nat, e: Event)
    requires WellFormed(e) && RecordAt(file, q, e)
    ensures JavaReadAt(file, q) ==
      if Accepted(e) then Some((e, q + EventLength(e))) else JavaReadAt(file, q + HEADER)
  {
    hide RecordAt; hide WellFormed; hide MagicAt; hide FieldsAfter; hide WithPayload; hide EventLength;
    FieldsAfterRecord(file, q, e);
    PayloadAfterRecord(file, q, e);
    MagicFits(file, q);
    JavaFromUnfolds(file, q + 4);
  }

  /** A record is returned exactly if its channel has 1 to 255 bytes and its data 1 to
      2^24 - 1; otherwise the search goes on behind its header. */
  lemma ReturnedExactly(file: seq<byte>, q: nat, e: Event)
    requires WellFormed(e) && RecordAt(file, q, e)
    ensures JavaReadAt(file, q) ==
      if 1 <= |e.channel| <= 255 && 1 <= |e.data| <= 0xFF_FFFF then Some((e, q + 28 + |e.channel| + |e.data|))
      else JavaReadAt(file, q + 28)
  {
    hide RecordAt; hide WellFormed; hide JavaReadAt;
    JavaAtRecord(file, q, e);
  }

  lemma AcceptedPositive(h: JavaFields)
    requires LengthsAccepted(h.channellen, h.datalen)
    ensures h.channellen > 0 && h.datalen > 0
  {}

  lemma FieldsAfterFits(file: seq<byte>, p: nat)
    ensures FieldsAfter(file, p).Some? <==> p + 24 <= |file|
  {}

  lemma {:induction false} JavaAdvances(file: seq<byte>, p: nat)
    ensures var r := JavaReadAt(file, p); r.Some? ==> p < r.value.1 <= |file|
    decreases |file| - p
  {
    hide FieldsAfter; hide LengthsAccepted;
    match FindMagic(file, p)
    case None =>
    case Some(q) =>
      JavaFromUnfolds(file, q + 4);
      var h := FieldsAfter(file, q + 4);
      if h.Some? {
        FieldsAfterFits(file, q + 4);
        JavaAdvances(file, q + HEADER);
        if LengthsAccepted(h.value.channellen, h.value.datalen) { AcceptedPositive(h.value); }
      }
  }

  /** What is read from an offset depends on the next event only. */
  lemma SameJavaAll(file: seq<byte>, from: nat, to: nat)
    requires from <= to && JavaReadAt(file, from) == JavaReadAt(file, to)
    ensures JavaReadAll(file, from) == JavaReadAll(file, to)
  {
    hide JavaReadAt;
    JavaAdvances(file, to);
  }

  lemma SameJavaRead(file: seq<byte>, from: nat, to: nat)
    requires from <= to && FindMagic(file, from) == FindMagic(file, to)
    ensures JavaReadAt(file, from) == JavaReadAt(file, to) && JavaReadAll(file, from) == JavaReadAll(file, to)
  {
    hide FindMagic; hide JavaFrom; hide JavaReadAll;
    assert JavaReadAt(file, from) == JavaReadAt(file, to);
    SameJavaAll(file, from, to);
  }

  lemma JavaTakes(file: seq<byte>, p: nat, e: Event, next: nat)
    requires JavaReadAt(file, p) == Some((e, next)) && p < next <= |file|
    ensures JavaReadAll(file, p) == [e] + JavaReadAll(file, next)
  {
    hide JavaReadAt;
  }

  lemma CleanHead(file: seq<byte>, p: nat, events: seq<Event>)
    requires Clean(file, p, events) && events != []
    ensures WellFormed(events[0]) && RecordAt(file, p, events[0])
    ensures p < p + HEADER <= p + EventLength(events[0]) <= |file|
  {
    hide RecordAt; hide WellFormed;
    IsLogStep(file, p, events);
  }

  lemma SkipsPayload(file: seq<byte>, p: nat, events: seq<Event>)
    requires Clean(file, p, events) && events != []
    ensures JavaReadAll(file, p + HEADER) == JavaReadAll(file, p + EventLength(events[0]))
  {
    hide *;
    CleanHead(file, p, events);
    var p' := p + EventLength(events[0]);
    if p + HEADER < p' {
      SkipsToNext(file, p, events, p + HEADER);
      SameJavaRead(file, p + HEADER, p');
    }
  }

  /** A record the Java reader does not accept is skipped as a whole. */
  lemma SkipsRefused(file: seq<byte>, p: nat, events: seq<Event>)
    requires Clean(file, p, events) && events != [] && !Accepted(events[0])
    ensures JavaReadAll(file, p) == JavaReadAll(file, p + EventLength(events[0]))
  {
    hide *;
    CleanHead(file, p, events);
    JavaAtRecord(file, p, events[0]);
    SameJavaAll(file, p, p + HEADER);
    SkipsPayload(file, p, events);
  }

  /** One record: its event if accepted, and on behind it. */
  lemma JavaAllStep(file: seq<byte>, p: nat, events: seq<Event>)
    requires Clean(file, p, events) && events != []
    ensures JavaReadAll(file, p) ==
      if Accepted(events[0]) then [events[0]] + JavaReadAll(file, p + EventLength(events[0]))
      else JavaReadAll(file, p + EventLength(events[0]))
  {
    hide *;
    CleanHead(file, p, events);
    if Accepted(events[0]) {
      JavaAtRecord(file, p, events[0]);
      JavaTakes(file, p, events[0], p + EventLength(events[0]));
    } else {
      SkipsRefused(file, p, events);
    }
  }

  lemma AcceptedStep(events: seq<Event>)
    requires events != []
    ensures AcceptedOf(events) ==
      if Accepted(events[0]) then [events[0]] + AcceptedOf(events[1..]) else AcceptedOf(events[1..])
  {}

  lemma NothingLeft(file: seq<byte>, p: nat, from: nat)
    requires IsLog(file, p, []) && p <= from
    ensures JavaReadAll(file, from) == [] && ReadAll(file, from) == []
  {
    EmptyLog(file, p);
    assert FindMagic(file, from) == None;
  }

  lemma NothingRead(file: seq<byte>, p: nat)
    requires Clean(file, p, [])
    ensures JavaReadAll(file, p) == AcceptedOf([]) == []
  {
    NothingLeft(file, p, p);
  }

  lemma {:induction false} JavaReadsAccepted(file: seq<byte>, p: nat, events: seq<Event>)
    requires Clean(file, p, events)
    ensures JavaReadAll(file, p) == AcceptedOf(events)
    decreases |events|
  {
    hide *;
    if events == [] {
      NothingRead(file, p);
    } else {
      CleanTail(file, p, events);
      JavaReadsAccepted(file, p + EventLength(events[0]), events[1..]);
      JavaAllStep(file, p, events);
      AcceptedStep(events);
    }
  }

  /** On a clean log, from any offset, the Java reader returns the events of the C
      reader whose lengths are within its limits. */
  lemma {:induction false} ReadersAgree(file: seq<byte>, p: nat, events: seq<Event>, from: nat)
    requires Clean(file, p, events) && p <= from
    ensures JavaReadAll(file, from) == AcceptedOf(ReadAll(file, from))
    decreases |events|
  {
    hide RecordAt; hide WellFormed; hide FindMagic; hide JavaReadAt; hide ReadAll; hide JavaReadAll; hide IsLog;
    if events == [] {
      NothingLeft(file, p, from);
    } else if from == p {
      LogRoundTrip(file, p, events);
      JavaReadsAccepted(file, p, events);
    } else {
      var p' := p + EventLength(events[0]);
      IsLogStep(file, p, events);
      CleanTail(file, p, events);
      if from < p' {
        SkipsToNext(file, p, events, from);
        SameJavaRead(file, from, p');
        ReadersAgree(file, p', events[1..], p');
      } else {
        ReadersAgree(file, p', events[1..], from);
      }
    }
  }

  // ----- the scanning loop -----

  /** The register after scanning from start to pos. When the search resumes
      behind a skipped header it still holds the old magic word. */
  function RegisterAt(resumed: bool, file: seq<byte>, start: nat, pos: nat): int
    requires start <= pos <= |file|
  {
    FromBigEndian(LastFour((if resumed then MAGIC else []) + file[start..pos]))
  }

  lemma RegisterEmpty(file: seq<byte>, start: nat)
    requires start <= |file|
    ensures RegisterAt(false, file, start, start) == 0
  {
    assert [] + file[start..start] == [];
  }

  /** After a skipped header the register still holds the old magic word. */
  lemma RegisterAfterMagic(file: seq<byte>, start: nat)
    requires start <= |file|
    ensures RegisterAt(true, file, start, start) == MAGIC_WORD
  {
    assert MAGIC + file[start..start] == MAGIC;
    RegisterIsMagic(MAGIC);
  }

  /** No tail of the old magic word starts a new one. */
  lemma OldMagicIsHarmless(s: seq<byte>)
    requires 1 <= |s|
    ensures LastFour(MAGIC + s) == MAGIC <==> |s| >= 4 && LastFour(s) == MAGIC
  {
    var t := MAGIC + s;
    if |s| < 4 {
      assert LastFour(t)[0] == t[|s|] == MAGIC[|s|];
    } else {
      assert LastFour(t) == LastFour(s);
    }
  }

  lemma LastFourSlice(file: seq<byte>, start: nat, pos: nat)
    requires start <= pos <= |file|
    ensures start + 4 <= pos ==> LastFour(file[start..pos]) == file[pos - 4..pos]
    ensures pos < start + 4 ==> LastFour(file[start..pos]) != MAGIC
  {}

  /** The last four bytes scanned are the magic word where the file has one. */
  lemma ScannedMagic(resumed: bool, file: seq<byte>, start: nat, pos: nat)
    requires start < pos <= |file|
    ensures LastFour((if resumed then MAGIC else []) + file[start..pos]) == MAGIC
       <==> start + 4 <= pos && MagicAt(file, pos - 4)
  {
    var s := file[start..pos];
    hide LastFour;
    if resumed { OldMagicIsHarmless(s); } else { assert [] + s == s; }
    LastFourSlice(file, start, pos);
  }

  lemma JavaScanStep(resumed: bool, file: seq<byte>, start: nat, pos: nat, magic: int)
    requires start <= pos < |file| && magic == RegisterAt(resumed, file, start, pos)
    ensures Register(magic, file[pos]) == RegisterAt(resumed, file, start, pos + 1)
    ensures Register(magic, file[pos]) == MAGIC_WORD <==> start + 4 <= pos + 1 && MagicAt(file, pos - 3)
  {
    hide FromBigEndian; hide Register; hide LastFour; hide MagicAt;
    var before := if resumed then MAGIC else [];
    assert before + file[start..pos] + [file[pos]] == before + file[start..pos + 1];
    RegisterStep(before + file[start..pos], file[pos], magic);
    ScannedMagic(resumed, file, start, pos + 1);
  }

  /** No magic word lies between start and pos. */
  ghost predicate NoMagicIn(file: seq<byte>, start: nat, pos: nat) {
    forall q :: start <= q && q + 4 <= pos ==> !MagicAt(file, q)
  }

  lemma NoMagicMore(file: seq<byte>, start: nat, pos: nat)
    requires NoMagicIn(file, start, pos) && (start + 4 <= pos + 1 ==> !MagicAt(file, pos - 3))
    ensures NoMagicIn(file, start, pos + 1)
  {
    hide MagicAt;
  }

  lemma FirstMagic(file: seq<byte>, start: nat, q: nat)
    requires start <= q && MagicAt(file, q) && NoMagicIn(file, start, q + 3)
    ensures FindMagic(file, start) == Some(q) && JavaReadAt(file, start) == JavaFrom(file, q + 4)
  {
    hide MagicAt; hide JavaFrom;
  }

  lemma NoEventLeft(file: seq<byte>, start: nat)
    requires NoMagicIn(file, start, |file|)
    ensures FindMagic(file, start) == None && JavaReadAt(file, start) == None
  {
    hide JavaFrom;
  }

  /** Writing the pieces of a record one after the other writes the record. */
  lemma RecordPieces(f: File, e: Event)
    ensures var f1 := PutBytes(PutBytes(f, MAGIC), EncodeInt(e.eventnum, 8));
      var f2 := PutBytes(PutBytes(f1, EncodeInt(e.timestamp, 8)), EncodeInt(|e.channel|, 4));
      PutBytes(f, Record(e)) == PutBytes(PutBytes(PutBytes(f2, EncodeInt(|e.data|, 4)), e.channel), e.data)
  {
    hide EncodeInt; hide PutBytes;
    var b1 := MAGIC + EncodeInt(e.eventnum, 8);
    var b2 := b1 + EncodeInt(e.timestamp, 8);
    var b3 := b2 + EncodeInt(|e.channel|, 4);
    PutBytesConcat(f, MAGIC, EncodeInt(e.eventnum, 8));
    PutBytesConcat(f, b1, EncodeInt(e.timestamp, 8));
    PutBytesConcat(f, b2, EncodeInt(|e.channel|, 4));
    PutBytesConcat(f, b3, EncodeInt(|e.data|, 4));
    PutBytesConcat(f, Header(e), e.channel);
    PutBytesConcat(f, Header(e) + e.channel, e.data);
  }

  class Log {
    const raf: BufferedRandomAccessFile

    constructor (raf: BufferedRandomAccessFile)
      ensures this.raf == raf
    {
      this.raf := raf;
    }

    method Write(e: Event)
      requires raf.Valid() && raf.Pos() <= raf.fileLength
      modifies raf, raf.raf, raf.buffer
      ensures raf.Valid() && raf.View() == PutBytes(old(raf.View()), Record(e))
    {
      hide EncodeInt; hide PutBytes; hide Overlay; hide Record;
      hide BufferedRandomAccessFile.Valid; hide BufferedRandomAccessFile.View; hide BufferedRandomAccessFile.Contents;
      RecordPieces(raf.View(), e);
      MagicBytes();
      raf.WriteInt(MAGIC_WORD - 0x1_0000_0000);
      raf.WriteLong(e.eventnum);
      raf.WriteLong(e.timestamp);
      raf.WriteInt(|e.channel|);
      raf.WriteInt(|e.data|);
      raf.WriteBytes(e.channel);
      raf.WriteBytes(e.data);
    }

    /** The inner part of the loop of readNext: shift bytes into magic until it
        is the magic word; false stands for the EOFException. */
    method ShiftToMagic(magic: int, ghost resumed: bool) returns (found: bool)
      requires raf.Valid() && raf.Pos() <= raf.fileLength
      requires magic == if resumed then MAGIC_WORD else 0
      modifies raf, raf.raf, raf.buffer
      ensures raf.Valid() && 0 <= raf.Pos() <= raf.fileLength == |raf.Contents()|
        && raf.Contents() == old(raf.Contents())
      ensures found ==> raf.Pos() > old(raf.Pos())
      ensures JavaReadAt(raf.Contents(), old(raf.Pos())) == if found then JavaFrom(raf.Contents(), raf.Pos()) else None
    {
      ghost var file := raf.Contents();
      ghost var start: nat := raf.Pos();
      var m := magic;
      RegisterEmpty(file, start);
      RegisterAfterMagic(file, start);
      assert 0 <= raf.Pos() && |file| == raf.fileLength && NoMagicIn(file, start, start);
      hide RegisterAt; hide MagicAt; hide Register; hide NoMagicIn; hide JavaFrom; hide FindMagic; hide JavaReadAt;
      hide BufferedRandomAccessFile.Valid; hide BufferedRandomAccessFile.View; hide BufferedRandomAccessFile.Contents;
      while true
        invariant raf.Valid() && raf.Contents() == file && start <= raf.Pos() <= |file| == raf.fileLength
        invariant m == RegisterAt(resumed, file, start, raf.Pos())
        invariant NoMagicIn(file, start, raf.Pos())
        decreases |file| - raf.Pos()
      {
        var next := ShiftOne(m, resumed, file, start);
        if next == None { return false; }
        m := next.value;
        if m == MAGIC_WORD { return true; }
      }
    }

    /** One byte into the register. */
    method ShiftOne(m: int, ghost resumed: bool, ghost file: seq<byte>, ghost start: nat) returns (r: Option<int>)
      requires raf.Valid() && raf.Contents() == file && start <= raf.Pos() <= |file| == raf.fileLength
      requires m == RegisterAt(resumed, file, start, raf.Pos()) && NoMagicIn(file, start, raf.Pos())
      modifies raf, raf.raf, raf.buffer
      ensures raf.Valid() && raf.Contents() == file && start <= raf.Pos() <= |file| == raf.fileLength
      ensures r == None ==> JavaReadAt(file, start) == None
      ensures r.Some? ==> raf.Pos() == old(raf.Pos()) + 1 && r.value == RegisterAt(resumed, file, start, raf.Pos())
      ensures r.Some? && r.value == MAGIC_WORD ==> JavaReadAt(file, start) == JavaFrom(file, raf.Pos())
      ensures r.Some? && r.value != MAGIC_WORD ==> NoMagicIn(file, start, raf.Pos())
    {
      hide RegisterAt; hide MagicAt; hide Register; hide NoMagicIn; hide JavaReadAt; hide JavaFrom; hide FindMagic;
      hide BufferedRandomAccessFile.Valid; hide BufferedRandomAccessFile.View; hide BufferedRandomAccessFile.Contents;
      ghost var p := raf.Pos();
      var v := raf.Read();
      if v == None {
        NoEventLeft(file, start);
        return None;
      }
      JavaScanStep(resumed, file, start, p, m);
      if Register(m, v.value) == MAGIC_WORD { FirstMagic(file, start, p - 3); } else { NoMagicMore(file, start, p); }
      return Some(Register(m, v.value));
    }

    /** The next acceptable event; None stands for the EOFException. */
    method ReadNext() returns (r: Option<Event>)
      requires raf.Valid() && raf.Pos() <= raf.fileLength
      modifies raf, raf.raf, raf.buffer
      ensures raf.Valid() && 0 <= raf.Pos() <= raf.fileLength && raf.Contents() == old(raf.Contents())
      ensures JavaReadAt(raf.Contents(), old(raf.Pos())) == if r.Some? then Some((r.value, raf.Pos())) else None
    {
      ghost var file := raf.Contents();
      ghost var start: nat := raf.Pos();
      var magic: int := 0;
      ghost var resumed := false;
      assert 0 <= raf.Pos() && |file| == raf.fileLength;
      hide FindMagic; hide JavaReadAt; hide JavaFrom; hide FieldsAfter; hide WithPayload;
      hide BufferedRandomAccessFile.Valid; hide BufferedRandomAccessFile.View; hide BufferedRandomAccessFile.Contents;
      var h: Option<JavaFields>;
      while true
        invariant raf.Valid() && raf.Contents() == file && 0 <= raf.Pos() <= |file| == raf.fileLength
        invariant magic == if resumed then MAGIC_WORD else 0
        invariant JavaReadAt(file, raf.Pos()) == JavaReadAt(file, start)
        decreases |file| - raf.Pos()
      {
        h := NextHeader(magic, resumed);
        if h == None { return None; }
        if LengthsAccepted(h.value.channellen, h.value.datalen) { break; }
        magic, resumed := MAGIC_WORD, true;
      }
      r := ReadPayload(h.value);
    }

    /** Up to the next magic word and through the header behind it. */
    method NextHeader(magic: int, ghost resumed: bool) returns (h: Option<JavaFields>)
      requires raf.Valid() && raf.Pos() <= raf.fileLength
      requires magic == if resumed then MAGIC_WORD else 0
      modifies raf, raf.raf, raf.buffer
      ensures raf.Valid() && 0 <= raf.Pos() <= raf.fileLength == |raf.Contents()|
        && raf.Contents() == old(raf.Contents())
      ensures h.Some? ==> raf.Pos() > old(raf.Pos())
      ensures JavaReadAt(raf.Contents(), old(raf.Pos())) ==
        if h == None then None
        else if LengthsAccepted(h.value.channellen, h.value.datalen) then
          WithPayload(raf.Contents(), raf.Pos(), h.value)
        else JavaReadAt(raf.Contents(), raf.Pos())
    {
      hide FindMagic; hide JavaReadAt; hide JavaFrom; hide FieldsAfter; hide WithPayload;
      var found := ShiftToMagic(magic, resumed);
      if !found { return None; }
      JavaFromUnfolds(raf.Contents(), raf.Pos());
      h := ReadHeader();
    }

    /** The four header fields behind the magic word. */
    method ReadHeader() returns (r: Option<JavaFields>)
      requires raf.Valid() && raf.Pos() <= raf.fileLength
      modifies raf, raf.raf, raf.buffer
      ensures raf.Valid() && 0 <= raf.Pos() <= raf.fileLength == |raf.Contents()|
        && raf.Contents() == old(raf.Contents())
      ensures r == FieldsAfter(old(raf.Contents()), old(raf.Pos())) && (r.Some? ==> raf.Pos() == old(raf.Pos()) + 24)
    {
      hide DecodeInt; hide Overlay;
      var n0 := raf.ReadLong();
      if n0 == None { return None; }
      var n1 := raf.ReadLong();
      if n1 == None { return None; }
      var n2 := raf.ReadInt();
      if n2 == None { return None; }
      var n3 := raf.ReadInt();
      if n3 == None { return None; }
      return Some(JavaFields(n0.value, n1.value, n2.value, n3.value));
    }

    method ReadPayload(h: JavaFields) returns (r: Option<Event>)
      requires raf.Valid() && raf.Pos() <= raf.fileLength && 0 <= h.channellen && 0 <= h.datalen
      modifies raf, raf.raf, raf.buffer
      ensures raf.Valid() && 0 <= raf.Pos() <= raf.fileLength == |raf.Contents()|
        && raf.Contents() == old(raf.Contents())
      ensures WithPayload(raf.Contents(), old(raf.Pos()), h) == if r.Some? then Some((r.value, raf.Pos())) else None
    {
      hide Overlay; hide BufferedRandomAccessFile.Valid; hide BufferedRandomAccessFile.Contents;
      raf.Sizes();
      var channel := ReadArray(h.channellen);
      if channel == None { return None; }
      var data := ReadArray(h.datalen);
      if data == None { return None; }
      return Some(Event(h.eventNumber, h.utime, channel.value, data.value));
    }

    /** readFully into a new array; None for the EOFException. */
    method ReadArray(n: nat) returns (r: Option<seq<byte>>)
      requires raf.Valid() && raf.Pos() <= raf.fileLength
      modifies raf, raf.raf, raf.buffer
      ensures raf.Valid() && 0 <= raf.Pos() <= raf.fileLength == |raf.Contents()|
        && raf.Contents() == old(raf.Contents())
      ensures var p := old(raf.Pos());
        if p + n <= |raf.Contents()| then r == Some(raf.Contents()[p..p + n]) && raf.Pos() == p + n else r == None
    {
      hide Overlay; hide Splice; hide BufferedRandomAccessFile.Valid; hide BufferedRandomAccessFile.Contents;
      raf.Sizes();
      var b := new byte[n];
      ghost var file, p, was := raf.Contents(), raf.Pos(), b[..];
      var end := raf.ReadFully(b, 0, n);
      raf.Sizes();
      if end != Full { return None; }
      SpliceWhole(was, file[p..p + n]);
      return Some(b[..]);
    }
  }
}
