/** lcm_eventlog_t: writing, reading and scanning a log through a stdio stream. */
module EventLog {
  import opened Bytes
  import opened EventLogFormat
  import opened MagicRegister
  import opened Wrappers

  /** The timestamp field of the record at q. */
  function TimeAt(file: seq<byte>, q: nat): int {
    if q + 20 <= |file| then DecodeInt(file[q + 12..q + 20]) else -1
  }

  function EventTimeAt(file: seq<byte>, p: nat): (int, nat)
    requires p <= |file|
  {
    match FindMagic(file, p)
    case None => (-1, |file|)
    case Some(q) => if q + 20 > |file| then (-1, |file|) else (TimeAt(file, q), q)
  }

  /** What get_event_time finds from the middle of the bracket. */
  function ProbeAt(file: seq<byte>, lo: nat, hi: nat): (int, nat)
    requires lo <= hi <= |file|
  {
    EventTimeAt(file, (lo + hi) / 2)
  }

  lemma EventTimeFacts(file: seq<byte>, p: nat)
    requires p <= |file| && EventTimeAt(file, p).0 >= 0
    ensures var q := EventTimeAt(file, p).1;
      p <= q && 20 <= |file| && q <= |file| && MagicAt(file, q) && TimeAt(file, q) == EventTimeAt(file, p).0
  {}

  function Middle(f1: real, f2: real): real { 0.5 * (f1 + f2) }

  /** (off_t)(frac * file_len) */
  function OffsetOf(f: real, n: nat): int { (f * n as real).Floor }

  /** (double) ftello (l->f) / file_len */
  function FractionOf(p: nat, n: nat): real
    requires n > 0
  {
    p as real / n as real
  }

  function Scale(f: real, n: nat): real { f * n as real }

  /** f is the position p as a fraction of n. */
  ghost predicate IsFraction(f: real, p: nat, n: nat) { Scale(f, n) == p as real }

  /** The probe is the integer midpoint of the bracket. */
  lemma Midpoint(f1: real, f2: real, n: nat, lo: nat, hi: nat)
    requires IsFraction(f1, lo, n) && IsFraction(f2, hi, n)
    ensures OffsetOf(Middle(f1, f2), n) == (lo + hi) / 2
  {
    var x := Middle(f1, f2) * n as real;
    assert x == 0.5 * (f1 * n as real) + 0.5 * (f2 * n as real);
    assert 2.0 * x == (lo + hi) as real;
  }

  lemma WholeFile(n: nat)
    ensures IsFraction(0.0, 0, n) && IsFraction(1.0, n, n)
  {}

  lemma DivMul(x: real, y: real)
    requires y > 0.0
    ensures x / y * y == x
  {}

  lemma DivisionIsFraction(p: nat, n: nat)
    requires n > 0
    ensures IsFraction(FractionOf(p, n), p, n)
  {
    DivMul(p as real, n as real);
  }

  lemma Compare(x: real, y: real, p: nat, q: nat)
    requires x == p as real && y == q as real
    ensures (x > y <==> p > q) && (x < y <==> p < q)
  {}

  lemma ScaleNext(x: real, n: nat)
    ensures Scale(x, n + 1) == Scale(x, n) + x
  {
    assert (n + 1) as real == n as real + 1.0;
  }

  lemma {:induction false} Monotonic(x: real, y: real, n: nat)
    requires x < y && n > 0
    ensures Scale(x, n) < Scale(y, n)
  {
    if n > 1 {
      Monotonic(x, y, n - 1);
      ScaleNext(x, n - 1);
      ScaleNext(y, n - 1);
    } else {
      assert n as real == 1.0;
    }
  }

  /** Comparing fractions is comparing offsets. */
  lemma Fraction(f: real, g: real, p: nat, q: nat, n: nat)
    requires n > 0 && IsFraction(f, p, n) && IsFraction(g, q, n)
    ensures (f > g <==> p > q) && (f < g <==> p < q)
  {
    hide Scale;
    if f > g { Monotonic(g, f, n); }
    if f < g { Monotonic(f, g, n); }
    Compare(Scale(f, n), Scale(g, n), p, q);
  }

  /** Closer than the bisection tells apart: by less than 10^-12 of the file. */
  predicate Near(p: int, q: int, n: nat) { (p - q) * 1_000_000_000_000 < n && (q - p) * 1_000_000_000_000 < n }

  lemma ZeroFraction(f: real, p: nat, n: nat)
    requires n > 0 && IsFraction(f, p, n)
    ensures f >= 0.0
  {
    assert IsFraction(0.0, 0, n);
    Fraction(f, 0.0, p, 0, n);
  }

  lemma ScaleSum(x: real, y: real, n: nat)
    ensures Scale(x + y, n) == Scale(x, n) + Scale(y, n)
  {}

  lemma NearbyFractions(f: real, g: real, p: nat, q: int, n: nat)
    requires n > 0 && IsFraction(f, p, n) && -0.000000000001 < f - g < 0.000000000001
    requires if q == -1 then g == -1.0 else q >= 0 && IsFraction(g, q, n)
    ensures q >= 0 && Near(p, q, n)
  {
    var e := 0.000000000001;
    ZeroFraction(f, p, n);
    assert q >= 0;
    Monotonic(f, g + e, n);
    Monotonic(g, f + e, n);
    ScaleSum(g, e, n);
    ScaleSum(f, e, n);
    assert Scale(e, n) == e * n as real;
  }

  class Log {
    var file: seq<byte>
    var pos: nat
    var eventcount: int

    constructor (contents: seq<byte>)
      ensures file == contents && pos == 0 && eventcount == 0
    {
      file, pos, eventcount := contents, 0, 0;
    }

    // ----- writing, at the end of the file -----

    method Fwrite(data: seq<byte>)
      requires pos == |file|
      modifies this`file, this`pos
      ensures file == old(file) + data && pos == |file|
    {
      file := file + data;
      pos := |file|;
    }

    method Fwrite32(v: int)
      requires pos == |file|
      modifies this`file, this`pos
      ensures file == old(file) + EncodeInt(v, 4) && pos == |file|
    {
      Fwrite(EncodeInt(v, 4));
    }

    method Fwrite64(v: int)
      requires pos == |file|
      modifies this`file, this`pos
      ensures file == old(file) + EncodeInt(v, 8) && pos == |file|
    {
      EncodeIntSplit(v, 4, 4);
      assert Shift(v, 4) == v / 0x1_0000_0000;
      Fwrite32(v / 0x1_0000_0000);
      Fwrite32(v);
    }

    /** Appends the record; the event number is the writer's own count. */
    method WriteEvent(timestamp: int, channel: seq<byte>, data: seq<byte>)
      requires pos == |file|
      modifies this
      ensures file == old(file) + Record(Event(old(eventcount), timestamp, channel, data))
      ensures pos == |file| && eventcount == old(eventcount) + 1
    {
      MagicBytes();
      hide EncodeInt;
      Fwrite32(MAGIC_WORD - 0x1_0000_0000);
      Fwrite64(eventcount);
      Fwrite64(timestamp);
      Fwrite32(|channel|);
      Fwrite32(|data|);
      Fwrite(channel);
      Fwrite(data);
      eventcount := eventcount + 1;
    }

    // ----- reading -----

    /** fgetc until the last four bytes are the magic word. */
    method ScanMagic() returns (found: bool)
      requires pos <= |file|
      modifies this`pos
      ensures match FindMagic(file, old(pos))
        case None => !found && pos == |file|
        case Some(q) => found && pos == q + 4 <= |file|
    {
      hide FindMagic; hide MagicAt; hide Register; hide FromBigEndian; hide LastFour;
      ghost var start := pos;
      var magic: int := 0;
      NothingScanned(file, start);
      while true
        invariant start <= pos <= |file|
        invariant magic == FromBigEndian(LastFour(file[start..pos]))
        invariant forall q :: start <= q && q + 4 <= pos ==> !MagicAt(file, q)
        decreases |file| - pos
      {
        if pos == |file| {
          NoneLeft(file, start);
          return false;
        }
        ScanStep(file, start, pos, magic);
        var r := file[pos];
        pos := pos + 1;
        magic := Register(magic, r);
        if magic == MAGIC_WORD {
          FoundFirst(file, start, pos - 4);
          return true;
        }
      }
    }

    lemma NothingScanned(f: seq<byte>, start: nat)
      requires start <= |f|
      ensures FromBigEndian(LastFour(f[start..start])) == 0
    {
      assert LastFour(f[start..start]) == [];
    }

    lemma NoneLeft(f: seq<byte>, start: nat)
      requires forall q :: start <= q && q + 4 <= |f| ==> !MagicAt(f, q)
      ensures FindMagic(f, start) == None
    {}

    lemma FoundFirst(f: seq<byte>, start: nat, q: nat)
      requires start <= q && MagicAt(f, q) && forall i :: start <= i < q ==> !MagicAt(f, i)
      ensures FindMagic(f, start) == Some(q)
    {}

    /** fread of a big-endian integer; `was` stays if the file is too short. */
    method Fread(n: nat, was: int) returns (v: int)
      requires pos <= |file|
      modifies this`pos
      ensures pos == After(file, old(pos), n) <= |file|
      ensures v == if old(pos) + n <= |file| then DecodeInt(file[old(pos)..old(pos) + n]) else was
    {
      if pos + n <= |file| {
        v := DecodeInt(file[pos..pos + n]);
        pos := pos + n;
      } else {
        v := was;
        pos := |file|;
      }
    }

    method ReadNextEvent() returns (r: ReadResult)
      requires pos <= |file|
      modifies this`pos, this`eventcount
      ensures (r, pos) == ReadAt(file, old(pos)) && pos <= |file|
      ensures r.Got? ==> eventcount == r.event.eventnum + 1
    {
      var found := ScanMagic();
      if !found { return Eof; }
      r := ReadFields();
    }

    /** The part of lcm_eventlog_read_next_event behind the magic word. */
    method ReadFields() returns (r: ReadResult)
      requires 4 <= pos <= |file|
      modifies this`pos, this`eventcount
      ensures (r, pos) == ReadBody(file, old(pos) - 4) && pos <= |file|
      ensures r.Got? ==> eventcount == r.event.eventnum + 1
    {
      hide FindMagic; hide DecodeInt;
      ghost var h := FieldsFrom(file, pos);
      var eventnum := Fread(8, 0);
      var timestamp := Fread(8, 0);
      var channellen := Fread(4, 0);
      var datalen := Fread(4, 0);
      assert h == Fields(eventnum, timestamp, channellen, datalen, pos);
      hide After; hide FieldAt; hide FieldsFrom;
      if channellen >= 1000 { return AssertFailed; }
      eventcount := eventnum;
      if channellen < 0 || datalen < 0 || pos + channellen + datalen > |file| {
        pos := |file|;
        return Eof;
      }
      var body := pos;
      pos := body + channellen + datalen;
      eventcount := eventcount + 1;
      return Got(Event(eventnum, timestamp, file[body..body + channellen], file[body + channellen..pos]));
    }

    // ----- seeking by time -----

    /** get_event_time: the time of the next event, leaving the file at its start. */
    method GetEventTime() returns (t: int)
      requires pos <= |file|
      modifies this`pos, this`eventcount
      ensures (t, pos) == EventTimeAt(file, old(pos)) && pos <= |file|
    {
      var found := ScanMagic();
      if !found { return -1; }
      hide FindMagic; hide DecodeInt;
      if pos + 8 > |file| { pos := |file|; return -1; }
      var eventnum := Fread(8, 0);
      if pos + 8 > |file| { pos := |file|; return -1; }
      t := Fread(8, 0);
      pos := pos - 20;
      eventcount := eventnum;
    }

    /** One look at the middle of the bracket. */
    method Probe(frac1: real, frac2: real, ghost lo: nat, ghost hi: nat) returns (curTime: int, frac: real)
      requires lo <= hi <= |file| && IsFraction(frac1, lo, |file|) && IsFraction(frac2, hi, |file|)
      modifies this`pos, this`eventcount
      ensures (curTime, pos) == ProbeAt(file, lo, hi) && pos <= |file|
      ensures curTime >= 0 ==> lo <= pos && |file| > 0 && MagicAt(file, pos) && TimeAt(file, pos) == curTime
      ensures curTime >= 0 ==>
        IsFraction(frac, pos, |file|) && (frac > frac2 <==> pos > hi) && (frac < frac1 <==> pos < lo)
    {
      hide IsFraction; hide MagicAt; hide TimeAt; hide Middle; hide OffsetOf; hide FractionOf;
      frac := Middle(frac1, frac2);
      Midpoint(frac1, frac2, |file|, lo, hi);
      var offset := OffsetOf(frac, |file|);
      pos := offset;
      curTime := GetEventTime();
      if curTime >= 0 {
        EventTimeFacts(file, offset);
        hide EventTimeAt;
        frac := FractionOf(pos, |file|);
        DivisionIsFraction(pos, |file|);
        Fraction(frac, frac1, pos, lo, |file|);
        Fraction(frac, frac2, pos, hi, |file|);
      }
    }

    /** lcm_eventlog_seek_to_timestamp with the fractions as exact reals. lo and hi
        are the offsets the brackets stand for; the loop ends on every file. */
    method SeekToTimestamp(timestamp: int) returns (status: int, ghost lo: nat, ghost hi: nat)
      requires pos <= |file|
      modifies this`pos, this`eventcount
      ensures pos <= |file| && lo <= hi <= |file| && (status == 0 || status == -1)
      ensures status == 0 ==>
        MagicAt(file, pos) && TimeAt(file, pos) >= 0 && ProbeAt(file, lo, hi) == (TimeAt(file, pos), pos)
      ensures status == 0 ==>
        TimeAt(file, pos) == timestamp || hi <= pos || Near(pos, lo, |file|) || Near(pos, hi, |file|)
      ensures status == -1 ==> ProbeAt(file, lo, hi).0 < 0
      ensures lo == 0 || (MagicAt(file, lo) && TimeAt(file, lo) < timestamp)
      ensures hi == |file| || (MagicAt(file, hi) && TimeAt(file, hi) > timestamp)
    {
      hide MagicAt; hide ProbeAt; hide TimeAt; hide Near; hide IsFraction;
      var fileLen := |file|;
      var frac1, frac2, prevFrac := 0.0, 1.0, -1.0;
      lo, hi := 0, fileLen;
      ghost var prev: int := -1;
      WholeFile(fileLen);
      while true
        invariant 0 <= lo <= hi <= fileLen == |file|
        invariant IsFraction(frac1, lo, fileLen) && IsFraction(frac2, hi, fileLen)
        invariant if prev == -1 then prevFrac == -1.0
          else (prev == lo || prev == hi) && IsFraction(prevFrac, prev, fileLen)
        invariant lo == 0 || (MagicAt(file, lo) && TimeAt(file, lo) < timestamp)
        invariant hi == |file| || (MagicAt(file, hi) && TimeAt(file, hi) > timestamp)
        decreases hi - lo, if prev == ProbeAt(file, lo, hi).1 then 0 else 1
      {
        var curTime, frac := Probe(frac1, frac2, lo, hi);
        if curTime < 0 { return -1, lo, hi; }
        Fraction(frac1, frac2, lo, hi, fileLen);
        if frac > frac2 || frac < frac1 || frac1 >= frac2 { break; }
        var df := frac - prevFrac;
        if df < 0.0 { df := -df; }
        if df < 0.000000000001 {
          NearbyFractions(frac, prevFrac, pos, prev, fileLen);
          break;
        }
        if prev != -1 { Fraction(frac, prevFrac, pos, prev, fileLen); }
        assert prev != pos;
        if curTime == timestamp { break; }
        if curTime < timestamp {
          frac1 := frac;
          lo := pos;
        } else {
          frac2 := frac;
          hi := pos;
        }
        prevFrac := frac;
        prev := pos;
      }
      status := 0;
    }
  }

  // ----- what the brackets mean in a clean, time-ordered log -----

  ghost predicate TimeOrdered(events: seq<Event>) {
    forall i, j :: 0 <= i < j < |events| ==> events[i].timestamp <= events[j].timestamp
  }

  lemma TimeOfRecord(file: seq<byte>, q: nat, e: Event)
    requires WellFormed(e) && RecordAt(file, q, e)
    ensures MagicAt(file, q) && TimeAt(file, q) == e.timestamp && q + HEADER <= |file|
  {
    FieldsAt(file, q, e);
  }

  lemma {:induction false} FirstIsEarliest(file: seq<byte>, p: nat, events: seq<Event>, t: int, q: nat)
    requires IsLog(file, p, events) && q in Starts(p, events)
    requires forall e :: e in events ==> t <= e.timestamp
    ensures t <= TimeAt(file, q)
    decreases |events|
  {
    hide WellFormed; hide RecordAt; hide TimeAt; hide IsLog; hide EventLength;
    IsLogStep(file, p, events);
    TimeOfRecord(file, p, events[0]);
    if q != p { FirstIsEarliest(file, p + EventLength(events[0]), events[1..], t, q); }
  }

  /** Later records carry later or equal times. */
  lemma {:induction false} StartsOrdered(file: seq<byte>, p: nat, events: seq<Event>, q1: nat, q2: nat)
    requires IsLog(file, p, events) && TimeOrdered(events)
    requires q1 in Starts(p, events) && q2 in Starts(p, events) && q1 <= q2
    ensures TimeAt(file, q1) <= TimeAt(file, q2)
    decreases |events|
  {
    hide WellFormed; hide RecordAt; hide TimeAt; hide IsLog; hide EventLength;
    var p' := p + EventLength(events[0]);
    IsLogStep(file, p, events);
    TimeOfRecord(file, p, events[0]);
    if q1 == p {
      if q2 != p { FirstIsEarliest(file, p', events[1..], events[0].timestamp, q2); }
    } else {
      StartsBeyond(p', events[1..], q1);
      StartsOrdered(file, p', events[1..], q1, q2);
    }
  }

  lemma {:induction false} StartsInside(file: seq<byte>, p: nat, events: seq<Event>, q: nat)
    requires IsLog(file, p, events) && q in Starts(p, events)
    ensures q + HEADER <= |file| && MagicAt(file, q) && exists e :: e in events && TimeAt(file, q) == e.timestamp
    decreases |events|
  {
    hide WellFormed; hide RecordAt; hide TimeAt; hide IsLog; hide MagicAt; hide EventLength;
    IsLogStep(file, p, events);
    TimeOfRecord(file, p, events[0]);
    if q != p { StartsInside(file, p + EventLength(events[0]), events[1..], q); }
  }

  /** A moved left bracket has only earlier events up to it, a moved right bracket
      only later ones from it on: an event at the target time lies between them. */
  lemma BracketsTarget(file: seq<byte>, events: seq<Event>, timestamp: int, lo: nat, hi: nat)
    requires Clean(file, 0, events) && TimeOrdered(events)
    requires lo == 0 || (MagicAt(file, lo) && TimeAt(file, lo) < timestamp)
    requires hi == |file| || (MagicAt(file, hi) && TimeAt(file, hi) > timestamp)
    ensures forall q :: q in Starts(0, events) && TimeAt(file, q) == timestamp ==> lo <= q < hi
  {
    hide MagicAt;
    forall q | q in Starts(0, events) && TimeAt(file, q) == timestamp ensures lo <= q < hi {
      if q < lo { StartsOrdered(file, 0, events, q, lo); }
      if q >= hi && hi != |file| { StartsOrdered(file, 0, events, hi, q); }
      StartsInside(file, 0, events, q);
    }
  }

  lemma NearIsEqual(p: nat, q: nat, n: nat)
    requires n <= 1_000_000_000_000
    ensures Near(p, q, n) ==> p == q
  {}

  lemma MiddleFinds(file: seq<byte>, lo: nat, hi: nat, pos: nat)
    requires lo <= hi <= |file| && ProbeAt(file, lo, hi) == (TimeAt(file, pos), pos) && TimeAt(file, pos) >= 0
    ensures (lo + hi) / 2 <= pos && pos + 20 <= |file| && forall q :: (lo + hi) / 2 <= q < pos ==> !MagicAt(file, q)
  {}

  lemma NoMagicNext(file: seq<byte>, q: nat)
    requires MagicAt(file, q)
    ensures !MagicAt(file, q + 1)
  {
    assert file[q..q + 4][1] == file[q + 1] == 0xA1;
    if q + 5 <= |file| { assert file[q + 1..q + 5][0] == 0xA1; }
  }

  lemma PastBracket(file: seq<byte>, timestamp: int, lo: nat, hi: nat, pos: nat)
    requires lo <= hi <= |file| <= 1_000_000_000_000 && MagicAt(file, pos) && TimeAt(file, pos) >= 0
    requires lo == 0 || (MagicAt(file, lo) && TimeAt(file, lo) < timestamp)
    requires hi == |file| || (MagicAt(file, hi) && TimeAt(file, hi) > timestamp)
    requires ProbeAt(file, lo, hi) == (TimeAt(file, pos), pos)
    requires hi <= pos || Near(pos, lo, |file|) || Near(pos, hi, |file|)
    ensures hi <= pos && hi < |file|
  {
    NearIsEqual(pos, lo, |file|);
    NearIsEqual(pos, hi, |file|);
    MiddleFinds(file, lo, hi, pos);
    NoMagicNext(file, pos);
    hide TimeAt; hide ProbeAt; hide MagicAt; hide Near;
  }

  /** Where status 0 leaves the file in a clean, time-ordered log of up to 10^12 bytes:
      at an event of the target time, or at a later one; and then any event of the
      target time lies in the first half of the bracket, where the search was not. */
  lemma FoundWhere(file: seq<byte>, events: seq<Event>, timestamp: int, lo: nat, hi: nat, pos: nat)
    requires Clean(file, 0, events) && TimeOrdered(events) && lo <= hi <= |file| <= 1_000_000_000_000
    requires lo == 0 || (MagicAt(file, lo) && TimeAt(file, lo) < timestamp)
    requires hi == |file| || (MagicAt(file, hi) && TimeAt(file, hi) > timestamp)
    requires MagicAt(file, pos) && TimeAt(file, pos) >= 0 && ProbeAt(file, lo, hi) == (TimeAt(file, pos), pos)
    requires TimeAt(file, pos) == timestamp || hi <= pos || Near(pos, lo, |file|) || Near(pos, hi, |file|)
    ensures TimeAt(file, pos) == timestamp || hi <= pos
    ensures TimeAt(file, pos) != timestamp ==> TimeAt(file, pos) > timestamp
    ensures TimeAt(file, pos) != timestamp ==>
      forall q :: q in Starts(0, events) && TimeAt(file, q) == timestamp ==> lo <= q < (lo + hi) / 2
  {
    if TimeAt(file, pos) != timestamp {
      PastBracket(file, timestamp, lo, hi, pos);
      MiddleFinds(file, lo, hi, pos);
      hide TimeAt; hide ProbeAt; hide MagicAt;
      StartsOrdered(file, 0, events, hi, pos);
      BracketsTarget(file, events, timestamp, lo, hi);
      forall q | q in Starts(0, events) && TimeAt(file, q) == timestamp ensures lo <= q < (lo + hi) / 2 {
        StartsInside(file, 0, events, q);
      }
    }
  }

  /** With no negative times, the search gives up only when the middle of the
      bracket lies past the start of the last record. */
  lemma GivesUpPastLastRecord(file: seq<byte>, events: seq<Event>, lo: nat, hi: nat)
    requires Clean(file, 0, events) && lo <= hi <= |file|
    requires forall e :: e in events ==> e.timestamp >= 0
    ensures ProbeAt(file, lo, hi).0 < 0 <==> forall q :: q in Starts(0, events) ==> q < (lo + hi) / 2
  {
    var mid := (lo + hi) / 2;
    if q :| q in Starts(0, events) && mid <= q { StartsInside(file, 0, events, q); }
    match FindMagic(file, mid)
    case None =>
    case Some(q) => StartsInside(file, 0, events, q);
  }
}
