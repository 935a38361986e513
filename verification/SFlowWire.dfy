/**
 The sFlow version 5 datagram on the wire: a stream of 32-bit words in which samples and the
 records inside them carry their own lengths, padded to whole words. A reference parser over
 the words is proved sound and complete for the grammar.
 */
module SFlowWire {
  import opened Options
  import opened SFlow

  /** The least number of words that hold `len` bytes. */
  function Padded(len: nat): (words: nat)
    ensures len <= 4 * words < len + 4
  {
    (len + 3) / 4
  }

  // ---- the grammar

  /** A flow record: a sampled packet header, or a kind the collector skips. */
  datatype WireRecord =
    | HeaderRecord(length: U32, protocol: U32, frameLength: U32, stripped: U32, headerLength: U32, body: seq<U32>)
    | OtherRecord(kind: U32, length: U32, body: seq<U32>)
  {
    ghost predicate Valid() {
      match this
      case HeaderRecord(length, _, _, _, headerLength, body) =>
        |body| == Padded(headerLength) && Padded(length) == 4 + |body|
      case OtherRecord(kind, length, body) => kind != FLOW_HEADER && |body| == Padded(length)
    }

    function Words(): seq<U32> {
      match this
      case HeaderRecord(length, protocol, frameLength, stripped, headerLength, body) =>
        [FLOW_HEADER, length, protocol, frameLength, stripped, headerLength] + body
      case OtherRecord(kind, length, body) => [kind, length] + body
    }
  }

  /** The fields of a flow sample before its records. */
  datatype Fields = Fields(seqno: U32, sourceType: U32, sourceIndex: U32, rate: U32, pool: U32, drops: U32,
                           inputFormat: U32, inputPort: U32, outputFormat: U32, outputPort: U32)
  {
    /** The compact form packs the source and each port with its format into one word. */
    predicate Valid(expanded: bool) {
      expanded || (sourceType < 0x100 && sourceIndex < 0x100_0000 && inputFormat < 4 && inputPort < 0x4000_0000 &&
                   outputFormat < 4 && outputPort < 0x4000_0000)
    }

    function Words(expanded: bool): seq<U32>
      requires Valid(expanded)
    {
      if expanded then
        [seqno, sourceType, sourceIndex, rate, pool, drops, inputFormat, inputPort, outputFormat, outputPort]
      else
        [seqno, 0x100_0000 * (sourceType as nat) + sourceIndex, rate, pool, drops,
         0x4000_0000 * (inputFormat as nat) + inputPort, 0x4000_0000 * (outputFormat as nat) + outputPort]
    }
  }

  /** A sample: a flow sample in either form, or a kind the collector skips. */
  datatype WireSample =
    | Flow(expanded: bool, length: U32, fields: Fields, records: seq<WireRecord>)
    | OtherSample(kind: U32, length: U32, body: seq<U32>)
  {
    ghost predicate Valid() {
      match this
      case Flow(expanded, length, fields, records) =>
        && fields.Valid(expanded)
        && (forall r | r in records :: r.Valid())
        && |records| < 0x1_0000_0000
        && Padded(length) == |fields.Words(expanded)| + 1 + |RecordsWords(records)|
      case OtherSample(kind, length, body) =>
        kind != FLOW_SAMPLE && kind != FLOW_SAMPLE_EXPANDED && |body| == Padded(length)
    }

    ghost function Words(): seq<U32>
      requires Valid()
    {
      match this
      case Flow(expanded, length, fields, records) =>
        [if expanded then FLOW_SAMPLE_EXPANDED else FLOW_SAMPLE, length] +
        (fields.Words(expanded) + [|records|] + RecordsWords(records))
      case OtherSample(kind, length, body) => [kind, length] + body
    }
  }

  function RecordsWords(rs: seq<WireRecord>): seq<U32> {
    if rs == [] then [] else rs[0].Words() + RecordsWords(rs[1..])
  }

  ghost predicate SamplesValid(ss: seq<WireSample>) {
    forall s | s in ss :: s.Valid()
  }

  ghost function SamplesWords(ss: seq<WireSample>): seq<U32>
    requires SamplesValid(ss)
  {
    if ss == [] then [] else assert ss[0] in ss; ss[0].Words() + SamplesWords(ss[1..])
  }

  datatype Wire = Wire(agent: IpAddress, subid: U32, seqno: U32, uptime: U32, samples: seq<WireSample>)
  {
    ghost predicate Valid() {
      && (|agent.words| == 1 || |agent.words| == 4)
      && |samples| < 0x1_0000_0000
      && SamplesValid(samples)
    }

    ghost function Words(): seq<U32>
      requires Valid()
    {
      [5, if |agent.words| == 1 then IPADDR_V4 else IPADDR_V6] + agent.words +
      [subid, seqno, uptime, |samples|] + SamplesWords(samples)
    }
  }

  // ---- the reference parser; `c` is the cursor, counted in words

  function ParseRecord(ws: seq<U32>, c: nat): Option<(WireRecord, nat)> {
    if c + 2 > |ws| then None
    else
      var kind, length := ws[c], ws[c + 1];
      var start := c + 2;
      if start + Padded(length) > |ws| then None
      else if kind == FLOW_HEADER then
        if start + 4 > |ws| then None
        else
          var headerLength := ws[start + 3];
          var end := start + 4 + Padded(headerLength);
          if end > |ws| || end != start + Padded(length) then None
          else
            Some((HeaderRecord(length, ws[start], ws[start + 1], ws[start + 2], headerLength, ws[start + 4..end]), end))
      else Some((OtherRecord(kind, length, ws[start..start + Padded(length)]), start + Padded(length)))
  }

  function ParseRecords(ws: seq<U32>, c: nat, n: nat): Option<(seq<WireRecord>, nat)>
    decreases n
  {
    if n == 0 then Some(([], c))
    else match ParseRecord(ws, c)
      case None => None
      case Some((r, c')) =>
        match ParseRecords(ws, c', n - 1)
        case None => None
        case Some((rs, end)) => Some(([r] + rs, end))
  }

  function FieldsLength(expanded: bool): nat {
    if expanded then 10 else 7
  }

  function ParseFields(ws: seq<U32>, c: nat, expanded: bool): Fields
    requires c + FieldsLength(expanded) <= |ws|
  {
    if expanded then
      Fields(ws[c], ws[c + 1], ws[c + 2], ws[c + 3], ws[c + 4], ws[c + 5], ws[c + 6], ws[c + 7], ws[c + 8], ws[c + 9])
    else
      Fields(ws[c], ws[c + 1] / 0x100_0000, ws[c + 1] % 0x100_0000, ws[c + 2], ws[c + 3], ws[c + 4],
             ws[c + 5] / 0x4000_0000, ws[c + 5] % 0x4000_0000, ws[c + 6] / 0x4000_0000, ws[c + 6] % 0x4000_0000)
  }

  function ParseSample(ws: seq<U32>, c: nat): Option<(WireSample, nat)> {
    if c + 2 > |ws| then None
    else
      var kind, length := ws[c], ws[c + 1];
      var start := c + 2;
      if start + Padded(length) > |ws| then None
      else if kind == FLOW_SAMPLE || kind == FLOW_SAMPLE_EXPANDED then
        var expanded := kind == FLOW_SAMPLE_EXPANDED;
        var k := FieldsLength(expanded);
        if start + k + 1 > |ws| then None
        else match ParseRecords(ws, start + k + 1, ws[start + k])
          case None => None
          case Some((rs, end)) =>
            if end != start + Padded(length) then None
            else Some((Flow(expanded, length, ParseFields(ws, start, expanded), rs), end))
      else Some((OtherSample(kind, length, ws[start..start + Padded(length)]), start + Padded(length)))
  }

  function ParseSamples(ws: seq<U32>, c: nat, n: nat): Option<(seq<WireSample>, nat)>
    decreases n
  {
    if n == 0 then Some(([], c))
    else match ParseSample(ws, c)
      case None => None
      case Some((s, c')) =>
        match ParseSamples(ws, c', n - 1)
        case None => None
        case Some((ss, end)) => Some(([s] + ss, end))
  }

  /** The header: version, agent address and four counters; the cursor after it. */
  function ParseHeader(ws: seq<U32>): Option<(Header, nat)> {
    if |ws| < 2 then None
    else if ws[1] != IPADDR_V4 && ws[1] != IPADDR_V6 then None
    else
      var c := if ws[1] == IPADDR_V4 then 3 else 6;
      if c + 4 > |ws| then None
      else Some((Header(ws[0], IpAddress(ws[2..c]), ws[c], ws[c + 1], ws[c + 2], ws[c + 3]), c + 4))
  }

  function ParseWire(ws: seq<U32>): Option<(Wire, nat)> {
    match ParseHeader(ws)
    case None => None
    case Some((h, c)) =>
      if h.version != 5 then None
      else match ParseSamples(ws, c, h.nsamples)
        case None => None
        case Some((ss, end)) => Some((Wire(h.agent, h.subid, h.seqno, h.uptime, ss), end))
  }

  // ---- soundness: what was parsed is what is there, to the word

  lemma ParseRecordSound(ws: seq<U32>, c: nat)
    requires ParseRecord(ws, c).Some?
    ensures var (r, end) := ParseRecord(ws, c).value;
            r.Valid() && c + 2 <= end <= |ws| && ws[c..end] == r.Words()
  {
    var (r, end) := ParseRecord(ws, c).value;
    if ws[c] == FLOW_HEADER {
      assert ws[c..end] == ws[c..c + 6] + r.body;
    } else {
      assert ws[c..end] == ws[c..c + 2] + r.body;
    }
  }

  /** In bytes: behind its two words a record fills the length it declares, and less than a word more. */
  lemma RecordBytes(ws: seq<U32>, c: nat)
    requires ParseRecord(ws, c).Some?
    ensures var end := ParseRecord(ws, c).value.1; 0 <= 4 * (end - (c + 2)) - ws[c + 1] < 4
  {
  }

  lemma {:induction false} ParseRecordsSound(ws: seq<U32>, c: nat, n: nat)
    requires c <= |ws| && ParseRecords(ws, c, n).Some?
    ensures var (rs, end) := ParseRecords(ws, c, n).value;
            && |rs| == n && (forall r | r in rs :: r.Valid())
            && c + 2 * n <= end <= |ws| && ws[c..end] == RecordsWords(rs)
    decreases n
  {
    hide ParseRecord, WireRecord.Words, WireRecord.Valid;
    if n > 0 {
      ParseRecordSound(ws, c);
      var (r, c') := ParseRecord(ws, c).value;
      ParseRecordsSound(ws, c', n - 1);
      var (rs, end) := ParseRecords(ws, c', n - 1).value;
      assert ([r] + rs)[1..] == rs;
      assert ws[c..end] == ws[c..c'] + ws[c'..end];
    }
  }

  lemma FieldsSize(f: Fields, expanded: bool)
    requires f.Valid(expanded)
    ensures |f.Words(expanded)| == FieldsLength(expanded)
  {
  }

  lemma FieldsSound(ws: seq<U32>, c: nat, expanded: bool)
    requires c + FieldsLength(expanded) <= |ws|
    ensures var f := ParseFields(ws, c, expanded);
            f.Valid(expanded) && f.Words(expanded) == ws[c..c + FieldsLength(expanded)]
  {
  }

  lemma SampleLayout(ws: seq<U32>, c: nat, k: nat, end: nat)
    requires c + 2 + k + 1 <= end <= |ws|
    ensures ws[c..end] == [ws[c], ws[c + 1]] +
                          (ws[c + 2..c + 2 + k] + [ws[c + 2 + k]] + ws[c + 2 + k + 1..end])
  {
  }

  lemma ParseSampleSound(ws: seq<U32>, c: nat)
    requires ParseSample(ws, c).Some?
    ensures var (s, end) := ParseSample(ws, c).value;
            s.Valid() && c + 2 <= end <= |ws| && ws[c..end] == s.Words()
  {
    hide ParseRecords, RecordsWords, Fields.Words, Fields.Valid, ParseFields;
    var kind, length := ws[c], ws[c + 1];
    var start := c + 2;
    if kind == FLOW_SAMPLE || kind == FLOW_SAMPLE_EXPANDED {
      var expanded := kind == FLOW_SAMPLE_EXPANDED;
      var k := FieldsLength(expanded);
      FieldsSound(ws, start, expanded);
      ParseRecordsSound(ws, start + k + 1, ws[start + k]);
      var (rs, end) := ParseRecords(ws, start + k + 1, ws[start + k]).value;
      SampleLayout(ws, c, k, end);
    }
  }

  /** The same for a sample, whatever the records inside it say of themselves. */
  lemma SampleBytes(ws: seq<U32>, c: nat)
    requires ParseSample(ws, c).Some?
    ensures var end := ParseSample(ws, c).value.1; 0 <= 4 * (end - (c + 2)) - ws[c + 1] < 4
  {
    hide ParseRecords, ParseFields;
  }

  /** The compact and the expanded flow sample without records, word by word. */
  lemma SampleLayouts(a: U32, b: U32, c: U32, d: U32, e: U32, f: U32, g: U32, h: U32, i: U32, j: U32, rest: seq<U32>)
    ensures ParseSample([1, 32, a, b, c, d, e, f, g, 0] + rest, 0) ==
            Some((Flow(false, 32, Fields(a, b / 0x100_0000, b % 0x100_0000, c, d, e, f / 0x4000_0000, f % 0x4000_0000,
                                         g / 0x4000_0000, g % 0x4000_0000), []), 10))
    ensures ParseSample([3, 44, a, b, c, d, e, f, g, h, i, j, 0] + rest, 0) ==
            Some((Flow(true, 44, Fields(a, b, c, d, e, f, g, h, i, j), []), 13))
  {
  }

  /** A record of a sampled header of `n` bytes, word by word. */
  lemma RecordLayout(protocol: U32, frame: U32, stripped: U32, n: U32, body: seq<U32>, rest: seq<U32>)
    requires n + 16 < 0x1_0000_0000 && n <= 4 * |body| < n + 4
    ensures ParseRecord([1, n + 16, protocol, frame, stripped, n] + body + rest, 0) ==
            Some((HeaderRecord(n + 16, protocol, frame, stripped, n, body), 6 + |body|))
  {
    var ws := [1, n + 16, protocol, frame, stripped, n] + body + rest;
    assert ws[6..6 + |body|] == body;
  }

  /** The header with an IPv4 or an IPv6 agent, word by word. */
  lemma HeaderLayouts(a: U32, b: U32, c: U32, d: U32, subid: U32, seqno: U32, uptime: U32, n: U32, rest: seq<U32>)
    ensures ParseHeader([5, 1, a, subid, seqno, uptime, n] + rest) ==
            Some((Header(5, IpAddress([a]), subid, seqno, uptime, n), 7))
    ensures ParseHeader([5, 2, a, b, c, d, subid, seqno, uptime, n] + rest) ==
            Some((Header(5, IpAddress([a, b, c, d]), subid, seqno, uptime, n), 10))
  {
    assert ([5, 1, a, subid, seqno, uptime, n] + rest)[2..3] == [a];
    assert ([5, 2, a, b, c, d, subid, seqno, uptime, n] + rest)[2..6] == [a, b, c, d];
  }

  lemma {:induction false} ParseSamplesSound(ws: seq<U32>, c: nat, n: nat)
    requires c <= |ws| && ParseSamples(ws, c, n).Some?
    ensures var (ss, end) := ParseSamples(ws, c, n).value;
            && |ss| == n && SamplesValid(ss)
            && c + 2 * n <= end <= |ws| && ws[c..end] == SamplesWords(ss)
    decreases n
  {
    hide ParseSample, WireSample.Words, WireSample.Valid;
    if n > 0 {
      ParseSampleSound(ws, c);
      var (s, c') := ParseSample(ws, c).value;
      ParseSamplesSound(ws, c', n - 1);
      var (ss, end) := ParseSamples(ws, c', n - 1).value;
      assert ([s] + ss)[1..] == ss;
      assert ws[c..end] == ws[c..c'] + ws[c'..end];
    }
  }

  /**
   A parsed datagram is a valid one and is word for word what the buffer starts with: every
   sample and every record inside it fills exactly its declared length, rounded up to words.
   */
  lemma ParseWireSound(ws: seq<U32>)
    requires ParseWire(ws).Some?
    ensures var (w, end) := ParseWire(ws).value;
            w.Valid() && end <= |ws| && ws[..end] == w.Words()
  {
    hide ParseSamples, SamplesWords, SamplesValid;
    var (h, c) := ParseHeader(ws).value;
    ParseSamplesSound(ws, c, h.nsamples);
    var (ss, end) := ParseSamples(ws, c, h.nsamples).value;
    var k := c - 4;
    assert ws[..end] == ws[..2] + ws[2..k] + ws[k..c] + ws[c..end];
  }

  // ---- completeness: every valid datagram is parsed, whatever follows it

  lemma Slice<T>(s: seq<T>, c: nat, n: nat, i: nat, j: nat)
    requires c + n <= |s| && i <= j <= n
    ensures s[c..c + n][i..j] == s[c + i..c + j]
  {
    var part := s[c..c + n];
    assert forall k | 0 <= k < j - i :: part[i..j][k] == s[c + i..c + j][k];
  }

  lemma ParseRecordComplete(ws: seq<U32>, c: nat, r: WireRecord)
    requires r.Valid() && c + |r.Words()| <= |ws| && ws[c..c + |r.Words()|] == r.Words()
    ensures ParseRecord(ws, c) == Some((r, c + |r.Words()|))
  {
    var part := ws[c..c + |r.Words()|];
    assert forall k | 0 <= k < |part| :: ws[c + k] == part[k];
    if r.HeaderRecord? {
      assert ws[c + 6..c + 6 + |r.body|] == part[6..];
    } else {
      assert ws[c + 2..c + 2 + |r.body|] == part[2..];
    }
  }

  lemma {:induction false} ParseRecordsComplete(ws: seq<U32>, c: nat, rs: seq<WireRecord>)
    requires (forall r | r in rs :: r.Valid()) && c + |RecordsWords(rs)| <= |ws|
    requires ws[c..c + |RecordsWords(rs)|] == RecordsWords(rs)
    ensures ParseRecords(ws, c, |rs|) == Some((rs, c + |RecordsWords(rs)|))
    decreases |rs|
  {
    hide ParseRecord, WireRecord.Words, WireRecord.Valid;
    if rs != [] {
      var k, n := |rs[0].Words()|, |RecordsWords(rs)|;
      var part := ws[c..c + n];
      assert ws[c..c + k] == part[..k] && ws[c + k..c + n] == part[k..];
      ParseRecordComplete(ws, c, rs[0]);
      ParseRecordsComplete(ws, c + k, rs[1..]);
      assert rs == [rs[0]] + rs[1..];
    }
  }

  lemma FieldsComplete(ws: seq<U32>, c: nat, expanded: bool, f: Fields)
    requires f.Valid(expanded) && c + FieldsLength(expanded) <= |ws|
    requires ws[c..c + FieldsLength(expanded)] == f.Words(expanded)
    ensures ParseFields(ws, c, expanded) == f
  {
    var part := ws[c..c + FieldsLength(expanded)];
    assert forall k | 0 <= k < |part| :: ws[c + k] == part[k];
  }

  lemma ParseSampleComplete(ws: seq<U32>, c: nat, s: WireSample)
    requires s.Valid() && c + |s.Words()| <= |ws| && ws[c..c + |s.Words()|] == s.Words()
    ensures ParseSample(ws, c) == Some((s, c + |s.Words()|))
  {
    hide ParseRecords, RecordsWords, Fields.Words, Fields.Valid, ParseFields;
    var n := |s.Words()|;
    var part := ws[c..c + n];
    assert ws[c] == part[0] && ws[c + 1] == part[1];
    if s.Flow? {
      var start, k := c + 2, FieldsLength(s.expanded);
      FieldsSize(s.fields, s.expanded);
      assert part[2..2 + k] == s.fields.Words(s.expanded);
      Slice(ws, c, n, 2, 2 + k); Slice(ws, c, n, 2 + k + 1, n);
      FieldsComplete(ws, start, s.expanded, s.fields);
      assert ws[start + k] == part[2 + k] == |s.records|;
      assert part[2 + k + 1..n] == RecordsWords(s.records);
      ParseRecordsComplete(ws, start + k + 1, s.records);
    } else {
      assert ws[c + 2..c + 2 + |s.body|] == part[2..];
    }
  }

  lemma {:induction false} ParseSamplesComplete(ws: seq<U32>, c: nat, ss: seq<WireSample>)
    requires SamplesValid(ss) && c + |SamplesWords(ss)| <= |ws|
    requires ws[c..c + |SamplesWords(ss)|] == SamplesWords(ss)
    ensures ParseSamples(ws, c, |ss|) == Some((ss, c + |SamplesWords(ss)|))
    decreases |ss|
  {
    hide ParseSample, WireSample.Words, WireSample.Valid;
    if ss != [] {
      var k, n := |ss[0].Words()|, |SamplesWords(ss)|;
      var part := ws[c..c + n];
      assert ws[c..c + k] == part[..k] && ws[c + k..c + n] == part[k..];
      ParseSampleComplete(ws, c, ss[0]);
      ParseSamplesComplete(ws, c + k, ss[1..]);
      assert ss == [ss[0]] + ss[1..];
    }
  }

  lemma WireLayout(start: seq<U32>, agent: seq<U32>, counters: seq<U32>, body: seq<U32>, rest: seq<U32>)
    requires |start| == 2 && |counters| == 4
    ensures var ws, k := start + agent + counters + body + rest, 2 + |agent|;
            && ws[0] == start[0] && ws[1] == start[1] && ws[2..k] == agent
            && ws[k] == counters[0] && ws[k + 1] == counters[1] && ws[k + 2] == counters[2] && ws[k + 3] == counters[3]
            && ws[k + 4..k + 4 + |body|] == body
  {
  }

  /** Every valid datagram is parsed back, whatever follows it in the buffer. */
  lemma ParseWireComplete(w: Wire, rest: seq<U32>)
    requires w.Valid()
    ensures ParseWire(w.Words() + rest) == Some((w, |w.Words()|))
  {
    hide ParseSamples, SamplesWords, SamplesValid;
    var ws := w.Words() + rest;
    var k := 2 + |w.agent.words|;
    var counters, body := [w.subid, w.seqno, w.uptime, |w.samples|], SamplesWords(w.samples);
    WireLayout([5, if |w.agent.words| == 1 then IPADDR_V4 else IPADDR_V6], w.agent.words, counters, body, rest);
    assert ws[0] == 5;
    ParseSamplesComplete(ws, k + 4, w.samples);
  }
}
