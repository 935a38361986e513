/**
 The sFlow parser: a cursor that moves over the datagram word by word. It accepts exactly the
 buffers that start with a valid datagram, and returns what the collector keeps of it.
 */
module SFlowParsers {
  import opened Bytes
  import opened Options
  import opened SFlow
  import opened SFlowWire

  // ---- bytes and words

  /** The whole words of a buffer; up to three trailing bytes are never looked at. */
  function WordsOf(buf: seq<Byte>): (ws: seq<U32>)
    ensures |ws| == |buf| / 4
  {
    seq(|buf| / 4, i requires 0 <= i < |buf| / 4 => Word32(buf, 4 * i))
  }

  function BytesOf(ws: seq<U32>): (b: seq<Byte>)
    ensures |b| == 4 * |ws|
  {
    if ws == [] then [] else Bytes32(ws[0]) + BytesOf(ws[1..])
  }

  lemma BytesOfWord(b: seq<Byte>, at: nat)
    requires at + 4 <= |b|
    ensures Bytes32(Word32(b, at)) == b[at..at + 4]
  {
  }

  /** The bytes under a range of words are the bytes of the buffer. */
  lemma {:induction false} BytesUnderWords(buf: seq<Byte>, c: nat, d: nat)
    requires c <= d <= |buf| / 4
    ensures BytesOf(WordsOf(buf)[c..d]) == buf[4 * c..4 * d]
    decreases d - c
  {
    var ws := WordsOf(buf);
    if c < d {
      assert ws[c..d][1..] == ws[c + 1..d];
      BytesOfWord(buf, 4 * c);
      BytesUnderWords(buf, c + 1, d);
      assert buf[4 * c..4 * d] == buf[4 * c..4 * c + 4] + buf[4 * (c + 1)..4 * d];
    }
  }

  lemma HeaderBytes(buf: seq<Byte>, c: nat, d: nat, n: nat)
    requires c <= d <= |buf| / 4 && n <= 4 * (d - c)
    ensures BytesOf(WordsOf(buf)[c..d])[..n] == buf[4 * c..4 * c + n]
  {
    hide BytesOf, WordsOf;
    BytesUnderWords(buf, c, d);
    Slice(buf, 4 * c, 4 * (d - c), 0, n);
  }

  lemma {:induction false} WordAtBytes(ws: seq<U32>, rest: seq<Byte>, i: nat)
    requires i < |ws|
    ensures Word32(BytesOf(ws) + rest, 4 * i) == ws[i]
  {
    var b := BytesOf(ws) + rest;
    if i == 0 {
      assert b[0..4] == Bytes32(ws[0]);
      Word32OfBytes(b, 0, ws[0]);
    } else {
      WordAtBytes(ws[1..], rest, i - 1);
      var tail := BytesOf(ws[1..]) + rest;
      assert b == Bytes32(ws[0]) + tail;
      assert forall k | 4 <= k < |b| :: b[k] == tail[k - 4];
    }
  }

  lemma WordsOfBytes(ws: seq<U32>, rest: seq<Byte>)
    requires |rest| < 4
    ensures WordsOf(BytesOf(ws) + rest) == ws
  {
    forall i | 0 <= i < |ws| ensures Word32(BytesOf(ws) + rest, 4 * i) == ws[i] { WordAtBytes(ws, rest, i); }
  }

  // ---- what the collector keeps of a datagram

  ghost predicate AllValid(rs: seq<WireRecord>) {
    forall r | r in rs :: r.Valid()
  }

  ghost function ViewRecords(rs: seq<WireRecord>): seq<FlowHeader>
    requires AllValid(rs)
  {
    if rs == [] then []
    else assert rs[0] in rs; (if rs[0].HeaderRecord? then [ViewRecord(rs[0])] else []) + ViewRecords(rs[1..])
  }

  function ViewRecord(r: WireRecord): FlowHeader
    requires r.HeaderRecord? && r.headerLength <= 4 * |r.body|
  {
    var h := BytesOf(r.body)[..r.headerLength];
    FlowHeader(r.length, r.protocol, r.frameLength, r.stripped, r.headerLength, h, DecodePacket(r.protocol, h))
  }

  ghost function ViewSample(s: WireSample): FlowSample
    requires s.Flow? && s.Valid()
  {
    var f := s.fields;
    FlowSample(if s.expanded then FLOW_SAMPLE_EXPANDED else FLOW_SAMPLE, s.length,
               f.seqno, f.sourceType, f.sourceIndex, f.rate, f.pool, f.drops,
               f.inputFormat, f.inputPort, f.outputFormat, f.outputPort, |s.records|, ViewRecords(s.records))
  }

  ghost function ViewSamples(ss: seq<WireSample>): seq<FlowSample>
    requires SamplesValid(ss)
  {
    if ss == [] then []
    else assert ss[0] in ss; (if ss[0].Flow? then [ViewSample(ss[0])] else []) + ViewSamples(ss[1..])
  }

  ghost function View(w: Wire): Data
    requires w.Valid()
  {
    Data(Header(5, w.agent, w.subid, w.seqno, w.uptime, |w.samples|), ViewSamples(w.samples))
  }

  /** What is kept of a record, a sample and a datagram, field by field. */
  lemma KeptOfRecord(r: WireRecord)
    requires r.HeaderRecord? && r.Valid()
    ensures var v := ViewRecord(r);
            && v.length == r.length && v.protocol == r.protocol && v.frameLength == r.frameLength
            && v.stripped == r.stripped && v.headerLength == r.headerLength == |v.header|
            && v.header == BytesOf(r.body)[..r.headerLength] && v.packet == DecodePacket(r.protocol, v.header)
  {
  }

  lemma KeptOfSample(s: WireSample)
    requires s.Flow? && s.Valid()
    ensures var v, f := ViewSample(s), s.fields;
            && v.kind == (if s.expanded then 3 else 1) && v.length == s.length && v.seqno == f.seqno
            && v.sourceType == f.sourceType && v.sourceIndex == f.sourceIndex
            && v.rate == f.rate && v.pool == f.pool && v.drops == f.drops
            && v.inputFormat == f.inputFormat && v.inputPort == f.inputPort
            && v.outputFormat == f.outputFormat && v.outputPort == f.outputPort
            && v.nrecords == |s.records| && v.records == ViewRecords(s.records)
  {
  }

  lemma KeptOfWire(w: Wire)
    requires w.Valid()
    ensures var h := View(w).header;
            && h.version == 5 && h.agent == w.agent && h.subid == w.subid && h.seqno == w.seqno
            && h.uptime == w.uptime && h.nsamples == |w.samples| && View(w).samples == ViewSamples(w.samples)
  {
  }

  // ---- the parser

  class SFlowParser {
    const buf: seq<Byte>
    /** `decode_ptr_`, counted in words from the start. */
    var decode: nat
    /** How many sample and record headers were read. */
    ghost var headers: nat

    ghost function Ws(): seq<U32> {
      WordsOf(buf)
    }

    /** No header is counted that was not read inside the datagram. */
    ghost predicate Counted()
      reads this
    {
      2 * headers <= decode && 2 * headers <= |buf| / 4
    }

    constructor (buf: seq<Byte>)
      ensures this.buf == buf && decode == 0 && headers == 0
    {
      this.buf := buf;
      decode := 0;
      headers := 0;
    }

    predicate CanReadBytes(len: nat)
      reads this
    {
      decode + Padded(len) <= |buf| / 4
    }

    predicate VerifyLength(start: nat, len: nat)
      reads this
    {
      start + Padded(len) == decode
    }

    method ReadData32NoCheck() returns (w: U32)
      requires decode < |buf| / 4
      modifies this`decode
      ensures decode == old(decode) + 1 && w == Ws()[old(decode)]
    {
      w := Word32(buf, 4 * decode);
      decode := decode + 1;
    }

    method ReadData32() returns (ok: bool, w: U32)
      modifies this`decode
      ensures ok <==> old(decode) < |buf| / 4
      ensures ok ==> decode == old(decode) + 1 && w == Ws()[old(decode)]
      ensures !ok ==> decode == old(decode)
    {
      if decode + 1 > |buf| / 4 { return false, 0; }
      w := ReadData32NoCheck();
      ok := true;
    }

    /** Moves the cursor first and checks it afterwards; a failure leaves it beyond the end. */
    method SkipBytes(len: nat) returns (ok: bool)
      modifies this`decode
      ensures decode == old(decode) + Padded(len)
      ensures ok <==> decode <= |buf| / 4
    {
      decode := decode + Padded(len);
      ok := decode <= |buf| / 4;
    }

    /** Reads an address of `n` words. */
    method ReadAddress(n: nat) returns (ok: bool, words: seq<U32>)
      requires decode <= |buf| / 4
      modifies this`decode
      ensures ok <==> old(decode) + n <= |buf| / 4
      ensures ok ==> decode == old(decode) + n && words == Ws()[old(decode)..decode]
      ensures !ok ==> decode == old(decode)
      ensures decode <= |buf| / 4
    {
      words := [];
      if decode + n > |buf| / 4 { return false, words; }
      for i := 0 to n
        invariant decode == old(decode) + i && words == Ws()[old(decode)..decode]
      {
        var w := ReadData32NoCheck();
        words := words + [w];
      }
      ok := true;
    }

    method ReadSFlowHeader() returns (ok: bool, h: Header)
      requires decode == 0
      modifies this`decode
      ensures ok <==> ParseHeader(Ws()).Some?
      ensures ok ==> ParseHeader(Ws()) == Some((h, decode)) && decode <= |buf| / 4
    {
      hide WordsOf;
      h := Header(0, IpAddress([]), 0, 0, 0, 0);
      var version, kind, subid, seqno, uptime, nsamples, words;
      ok, version := ReadData32();
      if !ok { return; }
      ok, kind := ReadData32();
      if !ok { return; }
      if kind == IPADDR_V4 {
        ok, words := ReadAddress(1);
      } else if kind == IPADDR_V6 {
        ok, words := ReadAddress(4);
      } else {
        return false, h;
      }
      if !ok { return; }
      ok, subid := ReadData32();
      if !ok { return; }
      ok, seqno := ReadData32();
      if !ok { return; }
      ok, uptime := ReadData32();
      if !ok { return; }
      ok, nsamples := ReadData32();
      if !ok { return; }
      h := Header(version, IpAddress(words), subid, seqno, uptime, nsamples);
    }

    /** A sampled packet header; the record's own length is checked by the caller. */
    method ReadSFlowFlowHeader(length: U32) returns (ok: bool, fh: FlowHeader)
      requires decode <= |buf| / 4
      modifies this`decode
      ensures var start := old(decode);
              && (ok <==> start + 4 <= |buf| / 4 && start + 4 + Padded(Ws()[start + 3]) <= |buf| / 4)
              && (ok ==>
                  && decode == start + 4 + Padded(Ws()[start + 3])
                  && fh == ViewRecord(HeaderRecord(length, Ws()[start], Ws()[start + 1], Ws()[start + 2],
                                                   Ws()[start + 3], Ws()[start + 4..decode])))
      ensures old(decode) <= decode
    {
      hide WordsOf, BytesOf, DecodePacket;
      var none := Packet(false, false, NO_ETHERNET, NO_IP);
      fh := FlowHeader(length, 0, 0, 0, 0, [], none);
      if !CanReadBytes(16) { return false, fh; }
      var protocol := ReadData32NoCheck();
      var ok1, frameLength := ReadData32();
      var ok2, stripped := ReadData32();
      var ok3, headerLength := ReadData32();
      var start := decode;
      ok := SkipBytes(headerLength);
      if !ok { return; }
      HeaderBytes(buf, start, decode, headerLength);
      var header := buf[4 * start..4 * start + headerLength];
      fh := FlowHeader(length, protocol, frameLength, stripped, headerLength, header, DecodePacket(protocol, header));
    }

    /** One flow sample after its type and length; its length is checked by the caller. */
    method ReadSFlowFlowSample(kind: U32, length: U32) returns (ok: bool, fs: FlowSample)
      requires kind == FLOW_SAMPLE || kind == FLOW_SAMPLE_EXPANDED
      requires decode <= |buf| / 4 && Counted()
      modifies this
      ensures var start, expanded := old(decode), kind == FLOW_SAMPLE_EXPANDED;
              var k := FieldsLength(expanded);
              && (ok <==> start + k + 1 <= |buf| / 4 && ParseRecords(Ws(), start + k + 1, Ws()[start + k]).Some?)
              && (ok ==>
                  var (rs, end) := ParseRecords(Ws(), start + k + 1, Ws()[start + k]).value;
                  decode == end && RecordsView(kind, length, ParseFields(Ws(), start, expanded), rs, fs))
      ensures old(decode) <= decode && Counted()
    {
      var expanded := kind == FLOW_SAMPLE_EXPANDED;
      fs := FlowSample(kind, length, 0, 0, 0, 0, 0, 0, 0, 0, 0, 0, 0, []);
      if !CanReadBytes(if expanded then 44 else 32) { return false, fs; }
      var f := ReadFields(expanded);
      var n := ReadData32NoCheck();
      var records;
      ok, records := ReadRecords(n);
      if !ok { return; }
      fs := FlowSample(kind, length, f.seqno, f.sourceType, f.sourceIndex, f.rate, f.pool, f.drops,
                       f.inputFormat, f.inputPort, f.outputFormat, f.outputPort, n, records);
    }

    /** The loop over the declared number of records. */
    method ReadRecords(n: U32) returns (ok: bool, records: seq<FlowHeader>)
      requires decode <= |buf| / 4 && Counted()
      modifies this
      ensures ok <==> ParseRecords(Ws(), old(decode), n).Some?
      ensures ok ==>
                var (rs, end) := ParseRecords(Ws(), old(decode), n).value;
                decode == end <= |buf| / 4 && |rs| == n && AllValid(rs) && records == ViewRecords(rs)
      ensures old(decode) <= decode && Counted()
    {
      hide ParseRecord, ViewRecord, WordsOf, WireRecord.Valid;
      records := [];
      ghost var seen: seq<WireRecord> := [];
      PrependNone(ParseRecords(Ws(), decode, n));
      for i := 0 to n
        invariant old(decode) <= decode <= |buf| / 4 && Counted()
        invariant AllValid(seen) && records == ViewRecords(seen) && |seen| == i
        invariant ParseRecords(Ws(), old(decode), n) == Prepend(seen, ParseRecords(Ws(), decode, n - i))
      {
        ghost var c := decode;
        ok, records := ReadRecord(records);
        if !ok { return; }
        ParseRecordSound(Ws(), c);
        ghost var r := ParseRecord(Ws(), c).value.0;
        ViewSnoc(seen, r);
        PrependMore(seen, r, ParseRecords(Ws(), decode, n - i - 1));
        seen := seen + [r];
      }
      assert seen + [] == seen;
      ok := true;
    }

    /** One flow record: its header, its contents, and the check that they agree on the length. */
    method ReadRecord(records: seq<FlowHeader>) returns (ok: bool, records': seq<FlowHeader>)
      requires decode <= |buf| / 4 && Counted()
      modifies this
      ensures ok <==> ParseRecord(Ws(), old(decode)).Some?
      ensures ok ==>
                var (r, end) := ParseRecord(Ws(), old(decode)).value;
                && decode == end <= |buf| / 4 && (r.HeaderRecord? ==> r.headerLength <= 4 * |r.body|)
                && records' == records + if r.HeaderRecord? then [ViewRecord(r)] else []
      ensures old(decode) <= decode && Counted()
    {
      hide WordsOf, ViewRecord;
      records' := records;
      if !CanReadBytes(8) { return false, records; }
      var kind := ReadData32NoCheck();
      var length := ReadData32NoCheck();
      headers := headers + 1;
      if !CanReadBytes(length) { return false, records; }
      var start := decode;
      if kind == FLOW_HEADER {
        var fh;
        ok, fh := ReadSFlowFlowHeader(length);
        if !ok { return; }
        records' := records + [fh];
      } else {
        decode := decode + Padded(length);
      }
      ok := VerifyLength(start, length);
    }

    /** The fields before the records, in the compact or the expanded form. */
    method ReadFields(expanded: bool) returns (f: Fields)
      requires decode + FieldsLength(expanded) <= |buf| / 4
      modifies this`decode
      ensures decode == old(decode) + FieldsLength(expanded)
      ensures f == ParseFields(Ws(), old(decode), expanded)
    {
      hide WordsOf;
      var sourceType, sourceIndex, inputFormat, inputPort, outputFormat, outputPort;
      var seqno := ReadData32NoCheck();
      if expanded {
        sourceType := ReadData32NoCheck();
        sourceIndex := ReadData32NoCheck();
      } else {
        var source := ReadData32NoCheck();
        sourceType, sourceIndex := source / 0x100_0000, source % 0x100_0000;
      }
      var rate := ReadData32NoCheck();
      var pool := ReadData32NoCheck();
      var drops := ReadData32NoCheck();
      if expanded {
        inputFormat := ReadData32NoCheck();
        inputPort := ReadData32NoCheck();
        outputFormat := ReadData32NoCheck();
        outputPort := ReadData32NoCheck();
      } else {
        var input := ReadData32NoCheck();
        var output := ReadData32NoCheck();
        inputFormat, inputPort := input / 0x4000_0000, input % 0x4000_0000;
        outputFormat, outputPort := output / 0x4000_0000, output % 0x4000_0000;
      }
      f := Fields(seqno, sourceType, sourceIndex, rate, pool, drops, inputFormat, inputPort, outputFormat, outputPort);
    }

    /** One sample: its header, its contents, and the check that they agree on the length. */
    method ReadSample(samples: seq<FlowSample>) returns (ok: bool, samples': seq<FlowSample>)
      requires decode <= |buf| / 4 && Counted()
      modifies this
      ensures ok <==> ParseSample(Ws(), old(decode)).Some?
      ensures ok ==>
                var (s, end) := ParseSample(Ws(), old(decode)).value;
                && decode == end <= |buf| / 4 && s.Valid()
                && samples' == samples + if s.Flow? then [ViewSample(s)] else []
      ensures old(decode) <= decode && Counted()
    {
      hide WordsOf, ParseRecords, ParseFields, ViewRecords, RecordsWords;
      samples' := samples;
      if !CanReadBytes(8) { return false, samples; }
      var kind := ReadData32NoCheck();
      var length := ReadData32NoCheck();
      headers := headers + 1;
      if !CanReadBytes(length) { return false, samples; }
      var start := decode;
      if kind == FLOW_SAMPLE || kind == FLOW_SAMPLE_EXPANDED {
        var fs;
        ok, fs := ReadSFlowFlowSample(kind, length);
        if !ok { return; }
        samples' := samples + [fs];
      } else {
        decode := decode + Padded(length);
      }
      ok := VerifyLength(start, length);
      if ok { ParseSampleSound(Ws(), old(decode)); }
    }

    /** `Parse`: accepts exactly the buffers that start with a valid datagram of version 5. */
    method Parse() returns (ret: int, data: Data)
      requires decode == 0 && headers == 0
      modifies this
      ensures ret == 0 || ret == -1
      ensures ret == 0 <==> ParseWire(Ws()).Some?
      ensures ret == 0 ==>
                var (w, end) := ParseWire(Ws()).value;
                decode == end <= |buf| / 4 && w.Valid() && data == View(w)
      ensures 8 * headers <= |buf|
    {
      hide WordsOf, ParseSample, ViewSample, WireSample.Valid;
      ghost var ws := Ws();
      data := Data(Header(0, IpAddress([]), 0, 0, 0, 0), []);
      var ok, h := ReadSFlowHeader();
      if !ok { return -1, data; }
      if h.version != 5 { return -1, data; }
      ghost var first := decode;
      var samples: seq<FlowSample> := [];
      ghost var seen: seq<WireSample> := [];
      PrependNone(ParseSamples(ws, first, h.nsamples));
      for i := 0 to h.nsamples
        invariant decode <= |buf| / 4 && Counted()
        invariant SamplesValid(seen) && samples == ViewSamples(seen) && |seen| == i
        invariant ParseSamples(ws, first, h.nsamples) == Prepend(seen, ParseSamples(ws, decode, h.nsamples - i))
      {
        ghost var c := decode;
        ok, samples := ReadSample(samples);
        if !ok { return -1, data; }
        ghost var s := ParseSample(ws, c).value.0;
        SamplesSnoc(seen, s);
        PrependMore(seen, s, ParseSamples(ws, decode, h.nsamples - i - 1));
        seen := seen + [s];
      }
      assert seen + [] == seen;
      ParseWireSound(ws);
      return 0, Data(h, samples);
    }
  }

  lemma {:induction false} SamplesSnoc(ss: seq<WireSample>, s: WireSample)
    requires SamplesValid(ss) && s.Valid()
    ensures SamplesValid(ss + [s])
    ensures ViewSamples(ss + [s]) == ViewSamples(ss) + if s.Flow? then [ViewSample(s)] else []
  {
    hide ViewSample, WireSample.Valid;
    if ss != [] {
      SamplesSnoc(ss[1..], s);
      assert (ss + [s])[1..] == ss[1..] + [s];
    }
  }

  ghost predicate RecordsView(kind: U32, length: U32, f: Fields, rs: seq<WireRecord>, fs: FlowSample) {
    && AllValid(rs)
    && fs.records == ViewRecords(rs)
    && fs.nrecords == |rs|
    && fs == FlowSample(kind, length, f.seqno, f.sourceType, f.sourceIndex, f.rate, f.pool, f.drops,
                        f.inputFormat, f.inputPort, f.outputFormat, f.outputPort, fs.nrecords, fs.records)
  }

  /** A parse of the rest, with what was parsed before put in front. */
  ghost function Prepend<T>(seen: seq<T>, rest: Option<(seq<T>, nat)>): Option<(seq<T>, nat)> {
    match rest
    case None => None
    case Some((xs, end)) => Some((seen + xs, end))
  }

  lemma PrependNone<T>(rest: Option<(seq<T>, nat)>)
    ensures Prepend([], rest) == rest
  {
    if rest.Some? { assert [] + rest.value.0 == rest.value.0; }
  }

  lemma PrependMore<T>(seen: seq<T>, x: T, rest: Option<(seq<T>, nat)>)
    ensures Prepend(seen, Prepend([x], rest)) == Prepend(seen + [x], rest)
  {
    if rest.Some? { assert seen + ([x] + rest.value.0) == seen + [x] + rest.value.0; }
  }

  lemma {:induction false} ViewSnoc(rs: seq<WireRecord>, r: WireRecord)
    requires AllValid(rs) && r.Valid()
    ensures AllValid(rs + [r])
    ensures ViewRecords(rs + [r]) == ViewRecords(rs) + if r.HeaderRecord? then [ViewRecord(r)] else []
  {
    hide ViewRecord;
    if rs != [] {
      ViewSnoc(rs[1..], r);
      assert (rs + [r])[1..] == rs[1..] + [r];
    }
  }

  // ---- the whole datagram, in bytes

  /** The parser accepts a buffer exactly when its words start with some valid datagram. */
  lemma Accepts(buf: seq<Byte>)
    ensures ParseWire(WordsOf(buf)).Some? <==> exists w: Wire :: w.Valid() && w.Words() <= WordsOf(buf)
  {
    hide ParseWire, WordsOf, Wire.Words, Wire.Valid;
    var ws := WordsOf(buf);
    if ParseWire(ws).Some? {
      ParseWireSound(ws);
      var (w, end) := ParseWire(ws).value;
      assert w.Words() <= ws;
    }
    if w: Wire :| w.Valid() && w.Words() <= ws {
      ParseWireComplete(w, ws[|w.Words()|..]);
      assert w.Words() + ws[|w.Words()|..] == ws;
    }
  }

  /** Any valid datagram, sent as bytes with up to three stray bytes after it, comes back. */
  lemma ParseBytes(w: Wire, stray: seq<Byte>)
    requires w.Valid() && |stray| < 4
    ensures ParseWire(WordsOf(BytesOf(w.Words()) + stray)) == Some((w, |w.Words()|))
  {
    hide ParseWire, WordsOf, BytesOf, Wire.Words, Wire.Valid;
    WordsOfBytes(w.Words(), stray);
    ParseWireComplete(w, []);
    assert w.Words() + [] == w.Words();
  }

  // ---- datagrams without skipped parts

  /** Header bytes padded with zeros to whole words. */
  function PadWords(h: seq<Byte>): (ws: seq<U32>)
    ensures |ws| == Padded(|h|)
  {
    WordsOf(h + seq(4 * Padded(|h|) - |h|, _ => 0))
  }

  lemma PadWordsBytes(h: seq<Byte>)
    ensures BytesOf(PadWords(h))[..|h|] == h
  {
    var padded := h + seq(4 * Padded(|h|) - |h|, _ => 0);
    BytesUnderWords(padded, 0, Padded(|h|));
    assert WordsOf(padded)[0..Padded(|h|)] == WordsOf(padded);
    assert padded[0..4 * Padded(|h|)] == padded;
  }

  /** A kept record as the exporter sends it. */
  function ToRecord(fh: FlowHeader): WireRecord {
    HeaderRecord(fh.length, fh.protocol, fh.frameLength, fh.stripped, fh.headerLength, PadWords(fh.header))
  }

  ghost predicate RecordWellFormed(fh: FlowHeader) {
    && |fh.header| == fh.headerLength
    && Padded(fh.length) == 4 + Padded(fh.headerLength)
    && fh.packet == DecodePacket(fh.protocol, fh.header)
  }

  function ToRecords(fhs: seq<FlowHeader>): (rs: seq<WireRecord>)
    ensures |rs| == |fhs|
  {
    if fhs == [] then [] else [ToRecord(fhs[0])] + ToRecords(fhs[1..])
  }

  lemma {:induction false} RecordsRoundTrip(fhs: seq<FlowHeader>)
    requires forall fh | fh in fhs :: RecordWellFormed(fh)
    ensures AllValid(ToRecords(fhs)) && ViewRecords(ToRecords(fhs)) == fhs
  {
    if fhs != [] {
      assert RecordWellFormed(fhs[0]);
      PadWordsBytes(fhs[0].header);
      RecordsRoundTrip(fhs[1..]);
      assert ToRecords(fhs)[1..] == ToRecords(fhs[1..]);
      assert fhs == [fhs[0]] + fhs[1..];
    }
  }

  function FieldsOf(fs: FlowSample): Fields {
    Fields(fs.seqno, fs.sourceType, fs.sourceIndex, fs.rate, fs.pool, fs.drops,
           fs.inputFormat, fs.inputPort, fs.outputFormat, fs.outputPort)
  }

  function ToSample(fs: FlowSample): WireSample {
    Flow(fs.kind == FLOW_SAMPLE_EXPANDED, fs.length, FieldsOf(fs), ToRecords(fs.records))
  }

  ghost predicate SampleWellFormed(fs: FlowSample) {
    && (fs.kind == FLOW_SAMPLE || fs.kind == FLOW_SAMPLE_EXPANDED)
    && (forall fh | fh in fs.records :: RecordWellFormed(fh))
    && fs.nrecords == |fs.records|
    && FieldsOf(fs).Valid(fs.kind == FLOW_SAMPLE_EXPANDED)
    && Padded(fs.length) == FieldsLength(fs.kind == FLOW_SAMPLE_EXPANDED) + 1 + |RecordsWords(ToRecords(fs.records))|
  }

  function ToSamples(fss: seq<FlowSample>): (ss: seq<WireSample>)
    ensures |ss| == |fss|
  {
    if fss == [] then [] else [ToSample(fss[0])] + ToSamples(fss[1..])
  }

  lemma SampleRoundTrip(fs: FlowSample)
    requires SampleWellFormed(fs)
    ensures ToSample(fs).Valid() && ViewSample(ToSample(fs)) == fs
  {
    hide RecordWellFormed, ViewRecords, ToRecords, RecordsWords;
    RecordsRoundTrip(fs.records);
    FieldsSize(FieldsOf(fs), fs.kind == FLOW_SAMPLE_EXPANDED);
  }

  lemma {:induction false} SamplesRoundTrip(fss: seq<FlowSample>)
    requires forall fs | fs in fss :: SampleWellFormed(fs)
    ensures SamplesValid(ToSamples(fss)) && ViewSamples(ToSamples(fss)) == fss
  {
    hide SampleWellFormed, ViewSample, ToSample, WireSample.Valid;
    if fss != [] {
      assert SampleWellFormed(fss[0]);
      SampleRoundTrip(fss[0]);
      SamplesRoundTrip(fss[1..]);
      assert ToSamples(fss)[1..] == ToSamples(fss[1..]);
      assert fss == [fss[0]] + fss[1..];
      FlowKind(fss[0]);
    }
  }

  lemma FlowKind(fs: FlowSample)
    ensures ToSample(fs).Flow?
  {
  }

  ghost predicate WellFormed(d: Data) {
    && d.header.version == 5
    && (|d.header.agent.words| == 1 || |d.header.agent.words| == 4)
    && d.header.nsamples == |d.samples|
    && (forall fs | fs in d.samples :: SampleWellFormed(fs))
  }

  function ToWire(d: Data): Wire {
    Wire(d.header.agent, d.header.subid, d.header.seqno, d.header.uptime, ToSamples(d.samples))
  }

  ghost function Serialise(d: Data): seq<Byte>
    requires ToWire(d).Valid()
  {
    BytesOf(ToWire(d).Words())
  }

  /** `parse(serialise(d)) == d`. */
  lemma RoundTrip(d: Data)
    requires WellFormed(d)
    ensures ToWire(d).Valid()
    ensures var r := ParseWire(WordsOf(Serialise(d))); r.Some? && r.value.0.Valid() && View(r.value.0) == d
  {
    hide ParseWire, WordsOf, BytesOf, SampleWellFormed, ToSamples, ViewSamples, SamplesValid, Wire.Words;
    SamplesRoundTrip(d.samples);
    ParseBytes(ToWire(d), []);
    assert BytesOf(ToWire(d).Words()) + [] == Serialise(d);
  }
}
