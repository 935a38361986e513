/**
 The parameters of a structured syslog element (the unescaped subset of section 6.3 of
 RFC 5424): adding them to a message that is forwarded, and reading them back.
 */
module StructuredSyslog {
  import opened Options
  import NumberedText

  datatype Pair = Pair(key: string, val: string)

  ghost predicate Absent(s: string, c: char, from: nat, to: nat) {
    forall i | from <= i < to && i < |s| :: s[i] != c
  }

  /** `string::find`: the first position from `from` on that holds `c`. */
  function Find(s: string, c: char, from: nat): (r: Option<nat>)
    ensures r.None? ==> Absent(s, c, from, |s|)
    ensures r.Some? ==> from <= r.value < |s| && s[r.value] == c && Absent(s, c, from, r.value)
    decreases |s| - from
  {
    if from >= |s| then None else if s[from] == c then Some(from) else Find(s, c, from + 1)
  }

  lemma FindIs(s: string, c: char, from: nat, at: nat)
    requires from <= at < |s| && s[at] == c && Absent(s, c, from, at)
    ensures Find(s, c, from) == Some(at)
  {
  }

  lemma FindMember(s: string, c: char, from: nat)
    ensures c !in s ==> Find(s, c, from).None?
    ensures c in s ==> Find(s, c, 0).Some?
  {
  }

  lemma FindInFront(head: string, rest: string, c: char, from: nat)
    requires Find(head, c, from).Some?
    ensures Find(head + rest, c, from) == Find(head, c, from)
  {
    FindIs(head + rest, c, from, Find(head, c, from).value);
  }

  lemma FindBehind(head: string, rest: string, c: char, from: nat)
    requires from <= |head| && Find(head, c, from).None? && rest != "" && rest[0] == c
    ensures Find(head + rest, c, from) == Some(|head|)
  {
    FindIs(head + rest, c, from, |head|);
  }

  lemma FindSome(s: string, c: char, from: nat, i: nat)
    requires from <= i < |s| && s[i] == c
    ensures Find(s, c, from).Some? && Find(s, c, from).value <= i
  {
  }

  lemma Front(head: string, rest: string, i: nat, j: nat)
    requires i <= j <= |head|
    ensures (head + rest)[i..j] == head[i..j]
  {
  }

  // ---- decorating a message

  function Param(p: Pair): string {
    p.key + "=\"" + p.val + "\""
  }

  /** Puts a parameter before the first ']' from `prev` on; position 0 when there is none. */
  function Decorated(msg: string, p: Pair, prev: nat): (string, nat) {
    match Find(msg, ']', prev)
    case None => (msg, 0)
    case Some(pos) => (msg[..pos] + (" " + Param(p)) + msg[pos..], pos)
  }

  function DecoratedAll(msg: string, ps: seq<Pair>, prev: nat): string
    decreases |ps|
  {
    if ps == [] then msg
    else var (msg', pos) := Decorated(msg, ps[0], prev); DecoratedAll(msg', ps[1..], pos)
  }

  /** The message being forwarded, if any. */
  class Forward {
    var text: string

    constructor (text: string)
      ensures this.text == text
    {
      this.text := text;
    }
  }

  method DecorateMsg(msg: Forward?, p: Pair, prev: nat) returns (pos: nat)
    modifies msg
    ensures msg != null ==> (msg.text, pos) == Decorated(old(msg.text), p, prev)
    ensures msg == null ==> pos == 0
  {
    if msg == null { return 0; }
    match Find(msg.text, ']', prev) {
      case None => return 0;
      case Some(at) =>
        var insert := " " + Param(p);
        msg.text := msg.text[..at] + insert + msg.text[at..];
        return at;
    }
  }

  // ---- reading parameters

  /** A stored field; the fields listed as integers are converted. */
  datatype Holder = TextField(s: string) | IntField(n: int)

  predicate IsSpace(c: char) {
    c == ' ' || 9 <= c as int <= 13
  }

  /** `isspace`: space, tab, line feed, vertical tab, form feed, carriage return. */
  lemma SpacesAre(c: char)
    ensures IsSpace(c) <==> c as int in {32, 9, 10, 11, 12, 13}
  {
  }

  function Digits(s: string, acc: nat): nat
    decreases |s|
  {
    if s == "" || !('0' <= s[0] <= '9') then acc else Digits(s[1..], 10 * acc + (s[0] as nat - '0' as nat))
  }

  /** `atol`, without its overflow. */
  function Atol(s: string): int {
    if s == "" then 0
    else if IsSpace(s[0]) then Atol(s[1..])
    else if s[0] == '-' then -(Digits(s[1..], 0) as int)
    else if s[0] == '+' then Digits(s[1..], 0)
    else Digits(s, 0)
  }

  predicate AllDigits(s: string) {
    forall i | 0 <= i < |s| :: NumberedText.IsDigit(s[i])
  }

  /** A text that does not go on with a digit. */
  predicate NoDigitNext(rest: string) {
    rest != "" ==> !NumberedText.IsDigit(rest[0])
  }

  lemma {:induction false} DigitsSnoc(ds: string, d: char, rest: string, acc: nat)
    requires AllDigits(ds) && NumberedText.IsDigit(d) && NoDigitNext(rest)
    ensures Digits(ds + [d] + rest, acc) == 10 * Digits(ds, acc) + NumberedText.DigitValue(d)
    decreases |ds|
  {
    var s := ds + [d] + rest;
    if ds == "" {
      assert s[1..] == rest;
    } else {
      assert s[1..] == ds[1..] + [d] + rest;
      DigitsSnoc(ds[1..], d, rest, 10 * acc + NumberedText.DigitValue(ds[0]));
    }
  }

  lemma {:induction false} DigitsValue(ds: string, rest: string)
    requires AllDigits(ds) && NoDigitNext(rest)
    ensures Digits(ds + rest, 0) == NumberedText.Value(ds)
    decreases |ds|
  {
    if ds == "" {
      assert ds + rest == rest;
    } else {
      var n := |ds| - 1;
      DigitsValue(ds[..n], "");
      assert ds[..n] + "" == ds[..n] && ds[..n] + [ds[n]] == ds;
      DigitsSnoc(ds[..n], ds[n], rest, 0);
    }
  }

  /** Leading spaces, a sign, digits, and what follows, as every text can be read: the signed value of the digits. */
  lemma {:induction false} AtolIs(spaces: string, sign: string, ds: string, rest: string)
    requires (forall c | c in spaces :: IsSpace(c)) && (sign == "" || sign == "-" || sign == "+")
    requires AllDigits(ds) && NoDigitNext(rest)
    requires sign + ds == "" && rest != "" ==> !IsSpace(rest[0]) && rest[0] != '-' && rest[0] != '+'
    ensures Atol(spaces + sign + ds + rest) == (if sign == "-" then -1 else 1) * NumberedText.Value(ds)
    decreases |spaces|
  {
    hide Digits, NumberedText.Value;
    var s := spaces + sign + ds + rest;
    if spaces != "" {
      assert spaces[0] in spaces && s[1..] == spaces[1..] + sign + ds + rest;
      AtolIs(spaces[1..], sign, ds, rest);
    } else {
      DigitsValue(ds, rest);
      if sign == "" { AtolUnsigned(ds, rest); assert s == ds + rest; } else { assert s[1..] == ds + rest; }
    }
  }

  lemma AtolUnsigned(ds: string, rest: string)
    requires AllDigits(ds) && NoDigitNext(rest)
    requires ds == "" && rest != "" ==> !IsSpace(rest[0]) && rest[0] != '-' && rest[0] != '+'
    ensures Atol(ds + rest) == Digits(ds + rest, 0)
  {
    if ds != "" { assert (ds + rest)[0] == ds[0]; } else { assert ds + rest == rest; }
  }

  /** So a printed number comes back, with any sign and spaces before it. */
  lemma AtolDecimal(spaces: string, negative: bool, n: nat)
    requires forall c | c in spaces :: IsSpace(c)
    ensures Atol(spaces + (if negative then "-" else "") + NumberedText.Decimal(n)) == (if negative then -1 else 1) * n
  {
    var sign := if negative then "-" else "";
    NumberedText.DecimalValue(n);
    AtolIs(spaces, sign, NumberedText.Decimal(n), "");
    assert spaces + sign + NumberedText.Decimal(n) + "" == spaces + sign + NumberedText.Decimal(n);
  }

  function Hold(p: Pair, ints: seq<string>): Holder {
    if p.key in ints then IntField(Atol(p.val)) else TextField(p.val)
  }

  /** `map::insert`: the first value of a key stays. */
  function Stored(v: map<string, Holder>, p: Pair, ints: seq<string>): map<string, Holder> {
    if p.key in v then v else v[p.key := Hold(p, ints)]
  }

  function StoredAll(v: map<string, Holder>, ps: seq<Pair>, ints: seq<string>): map<string, Holder>
    decreases |ps|
  {
    if ps == [] then v else StoredAll(Stored(v, ps[0], ints), ps[1..], ints)
  }

  /** The pairs read from `start` on, and whether the text ended well. */
  function Read(s: string, start: nat): (bool, seq<Pair>)
    decreases |s| + 2 - start
  {
    match Find(s, '=', start)
    case None => (true, [])
    case Some(eq) =>
      match Find(s, '\"', eq + 2)
      case None => (false, [])
      case Some(quote) =>
        var (ok, rest) := Read(s, quote + 2);
        (ok, [Pair(s[start..eq], s[eq + 2..quote])] + rest)
  }

  lemma ReadStep(s: string, start: nat, eq: nat, quote: nat)
    requires Find(s, '=', start) == Some(eq) && Find(s, '\"', eq + 2) == Some(quote)
    ensures Read(s, start) == (Read(s, quote + 2).0, [Pair(s[start..eq], s[eq + 2..quote])] + Read(s, quote + 2).1)
  {
    hide Find, Absent;
  }

  lemma ReadEnd(s: string, start: nat)
    requires Find(s, '=', start).None?
    ensures Read(s, start) == (true, [])
  {
  }

  lemma FoldSteps(v: map<string, Holder>, msg: string, prev: nat, p: Pair, ps: seq<Pair>, ints: seq<string>)
    ensures StoredAll(v, [p] + ps, ints) == StoredAll(Stored(v, p, ints), ps, ints)
    ensures DecoratedAll(msg, [p] + ps, prev) == DecoratedAll(Decorated(msg, p, prev).0, ps, Decorated(msg, p, prev).1)
  {
    hide Stored, Decorated;
    assert ([p] + ps)[1..] == ps;
  }

  /** Reads every pair into the map and repeats it on the message being forwarded. */
  method ParseStructuredPart(v: map<string, Holder>, s: string, ints: seq<string>, fwd: Forward?)
    returns (ok: bool, v': map<string, Holder>)
    modifies fwd
    ensures ok == Read(s, 0).0
    ensures v' == StoredAll(v, Read(s, 0).1, ints)
    ensures fwd != null ==> fwd.text == DecoratedAll(old(fwd.text), Read(s, 0).1, 0)
  {
    hide Read, StoredAll, DecoratedAll, Stored, Decorated;
    var start, prev := 0, 0;
    v' := v;
    while true
      invariant start <= |s| + 1
      invariant Read(s, 0).0 == Read(s, start).0
      invariant StoredAll(v, Read(s, 0).1, ints) == StoredAll(v', Read(s, start).1, ints)
      invariant fwd != null ==>
                  DecoratedAll(old(fwd.text), Read(s, 0).1, 0) == DecoratedAll(fwd.text, Read(s, start).1, prev)
      decreases |s| + 2 - start
    {
      var eq := Find(s, '=', start);
      if eq.None? { ReadEnd(s, start); break; }
      var quote := Find(s, '\"', eq.value + 2);
      if quote.None? {
        ReadBad(s, start); FoldNone(v', if fwd == null then "" else fwd.text, prev, ints);
        return false, v';
      }
      var p := Pair(s[start..eq.value], s[eq.value + 2..quote.value]);
      ReadStep(s, start, eq.value, quote.value);
      FoldSteps(v', if fwd == null then "" else fwd.text, prev, p, Read(s, quote.value + 2).1, ints);
      v' := Stored(v', p, ints);
      prev := DecorateMsg(fwd, p, prev);
      start := quote.value + 2;
    }
    FoldNone(v', if fwd == null then "" else fwd.text, prev, ints);
    ok := true;
  }

  lemma ReadBad(s: string, start: nat)
    requires Find(s, '=', start).Some? && Find(s, '\"', Find(s, '=', start).value + 2).None?
    ensures Read(s, start) == (false, [])
  {
  }

  lemma FoldNone(v: map<string, Holder>, msg: string, prev: nat, ints: seq<string>)
    ensures StoredAll(v, [], ints) == v && DecoratedAll(msg, [], prev) == msg
  {
  }

  // ---- decorating, then reading

  /** Parameters separated by single spaces. */
  function Params(ps: seq<Pair>): string {
    if ps == [] then "" else if |ps| == 1 then Param(ps[0]) else Param(ps[0]) + " " + Params(ps[1..])
  }

  function Added(ps: seq<Pair>): string {
    if ps == [] then "" else " " + Param(ps[0]) + Added(ps[1..])
  }

  predicate Readable(p: Pair) {
    '=' !in p.key && '\"' !in p.val
  }

  predicate NoBracket(p: Pair) {
    ']' !in p.key && ']' !in p.val
  }

  lemma FindPast(s: string, from: nat, at: nat, c: char)
    requires from <= at < |s| && s[at] == c && c !in s[from..at]
    ensures Find(s, c, from) == Some(at)
  {
    forall i | from <= i < at ensures s[i] != c { assert s[i] == s[from..at][i - from]; }
    FindIs(s, c, from, at);
  }

  lemma ParamLayout(pre: string, key: string, val: string, rest: string)
    ensures var s := pre + (key + "=\"" + val + "\"") + rest;
            var eq := |pre| + |key|;
            var quote := eq + 2 + |val|;
            s[|pre|..eq] == key && s[eq] == '=' && s[eq + 2..quote] == val && s[quote] == '\"'
  {
    var p := key + "=\"" + val + "\"";
    assert p[..|key|] == key && p[|key|] == '=' && p[|key| + 2..|p| - 1] == val && p[|p| - 1] == '\"';
    Within(pre, p, rest, 0, |key|);
    Within(pre, p, rest, |key| + 2, |p| - 1);
  }

  lemma Within(pre: string, p: string, rest: string, i: nat, j: nat)
    requires i <= j <= |p|
    ensures (pre + p + rest)[|pre| + i..|pre| + j] == p[i..j]
  {
  }

  /** The reader's two searches in a text that goes on with a parameter. */
  lemma ParamFinds(s: string, pre: string, p: Pair, rest: string)
    requires s == pre + Param(p) + rest && Readable(p)
    ensures var eq := |pre| + |p.key|;
            Find(s, '=', |pre|) == Some(eq) && Find(s, '\"', eq + 2) == Some(eq + 2 + |p.val|)
  {
    hide Find;
    var eq := |pre| + |p.key|;
    ParamLayout(pre, p.key, p.val, rest);
    FindPast(s, |pre|, eq, '=');
    FindPast(s, eq + 2, eq + 2 + |p.val|, '\"');
  }

  lemma ParamLength(p: Pair)
    ensures |Param(p)| == |p.key| + |p.val| + 3
  {
  }

  lemma ReadParam(pre: string, p: Pair, rest: string)
    requires Readable(p)
    ensures var s := pre + Param(p) + rest;
            var (ok, ps) := Read(s, |pre| + |Param(p)| + 1);
            Read(s, |pre|) == (ok, [p] + ps)
  {
    hide Read, Find;
    var s := pre + Param(p) + rest;
    var eq := |pre| + |p.key|;
    var quote := eq + 2 + |p.val|;
    ParamLayout(pre, p.key, p.val, rest);
    FindPast(s, |pre|, eq, '=');
    FindPast(s, eq + 2, quote, '\"');
    ReadStep(s, |pre|, eq, quote);
  }

  lemma {:induction false} ReadParams(pre: string, ps: seq<Pair>)
    requires forall p | p in ps :: Readable(p)
    ensures Read(pre + Params(ps), |pre|) == (true, ps)
    decreases |ps|
  {
    hide Read, Param;
    if ps == [] {
      ReadEnd(pre + "", |pre|);
    } else {
      assert ps[0] in ps;
      var rest := if |ps| == 1 then "" else " " + Params(ps[1..]);
      var s := pre + Param(ps[0]) + rest;
      assert pre + Params(ps) == s;
      ReadParam(pre, ps[0], rest);
      if |ps| == 1 {
        ReadEnd(s, |pre| + |Param(ps[0])| + 1);
        assert ps == [ps[0]] + [];
      } else {
        var pre' := pre + Param(ps[0]) + " ";
        ReadParams(pre', ps[1..]);
        assert pre' + Params(ps[1..]) == s;
        assert ps == [ps[0]] + ps[1..];
      }
    }
  }

  lemma {:induction false} ParamsAdded(ps: seq<Pair>, more: seq<Pair>)
    requires ps != []
    ensures Params(ps + more) == Params(ps) + Added(more)
    decreases |ps| + |more|
  {
    if more == [] {
      assert ps + more == ps && Params(ps) + "" == Params(ps);
    } else if |ps| == 1 {
      assert (ps + more)[1..] == more;
      ParamsAdded([more[0]], more[1..]);
      assert [more[0]] + more[1..] == more;
      assert Param(ps[0]) + " " + (Param(more[0]) + Added(more[1..])) == Param(ps[0]) + Added(more);
    } else {
      assert (ps + more)[1..] == ps[1..] + more;
      ParamsAdded(ps[1..], more);
    }
  }

  lemma Joined(a: string, b: string, c: string)
    ensures (a + b) + c == a + (b + c)
  {
  }

  lemma DecoratedOnce(head: string, p: Pair, tail: string, prev: nat)
    requires ']' !in head && prev <= |head|
    ensures Decorated(head + "]" + tail, p, prev) == (head + (" " + Param(p)) + "]" + tail, |head|)
  {
    hide Param;
    var msg := head + "]" + tail;
    assert msg[..|head|] == head && msg[|head|..] == "]" + tail;
    FindPast(msg, prev, |head|, ']');
    Joined(head + (" " + Param(p)), "]", tail);
  }

  /** Each parameter goes right before the bracket, after those added before it. */
  lemma {:induction false} DecoratedMessage(head: string, ps: seq<Pair>, tail: string, prev: nat)
    requires ']' !in head && prev <= |head| && forall p | p in ps :: NoBracket(p)
    ensures DecoratedAll(head + "]" + tail, ps, prev) == head + Added(ps) + "]" + tail
    decreases |ps|
  {
    hide Param, Find, Decorated;
    if ps == [] {
      assert head + "" == head;
    } else {
      var head' := head + (" " + Param(ps[0]));
      assert ps[0] in ps;
      ParamNoBracket(ps[0]);
      DecoratedOnce(head, ps[0], tail, prev);
      DecoratedMessage(head', ps[1..], tail, |head|);
      Joined(head, " " + Param(ps[0]), Added(ps[1..]));
    }
  }

  /** Without a closing bracket nothing is added. */
  lemma {:induction false} UndecoratedMessage(msg: string, ps: seq<Pair>, prev: nat)
    requires ']' !in msg
    ensures DecoratedAll(msg, ps, prev) == msg
    decreases |ps|
  {
    FindMember(msg, ']', prev);
    if ps != [] { UndecoratedMessage(msg, ps[1..], 0); }
  }

  lemma ParamNoBracket(p: Pair)
    requires NoBracket(p)
    ensures ']' !in Param(p)
  {
  }

  lemma {:induction false} TextNoBracket(ps: seq<Pair>)
    requires forall p | p in ps :: NoBracket(p)
    ensures ']' !in Params(ps) && ']' !in Added(ps)
  {
    hide Param;
    if ps != [] { assert ps[0] in ps; ParamNoBracket(ps[0]); TextNoBracket(ps[1..]); }
  }

  /** Where the reader looks for the next parameter once it has read all there is. */
  function Resume(s: string, start: nat): (r: nat)
    ensures start <= r && (start <= |s| + 1 ==> r <= |s| + 1)
    decreases |s| + 2 - start
  {
    match Find(s, '=', start)
    case None => start
    case Some(eq) =>
      match Find(s, '\"', eq + 2)
      case None => start
      case Some(quote) => Resume(s, quote + 2)
  }

  /** The text ends with the closing quote of its last parameter. */
  predicate Closed(s: string) {
    Resume(s, 0) == |s| + 1
  }

  /** Text that follows is read from where the reader stopped. */
  lemma {:induction false} ReadMore(s: string, t: string, start: nat)
    requires start <= |s| + 1 && Read(s, start).0
    ensures var r := Resume(s, start);
            && Find(s, '=', r).None? && Resume(s + t, start) == Resume(s + t, r)
            && Read(s + t, start) == (Read(s + t, r).0, Read(s, start).1 + Read(s + t, r).1)
    decreases |s| + 2 - start
  {
    hide Find, Absent, Read, Resume;
    match Find(s, '=', start) {
      case None =>
        ReadEnd(s, start); ResumeStop(s, start);
        assert [] + Read(s + t, start).1 == Read(s + t, start).1;
      case Some(eq) =>
        if Find(s, '\"', eq + 2).None? { ReadBad(s, start); }
        var quote := Find(s, '\"', eq + 2).value;
        FindInFront(s, t, '=', start); FindInFront(s, t, '\"', eq + 2);
        ReadStep(s, start, eq, quote); ReadStep(s + t, start, eq, quote); ResumeStep(s, start, eq, quote);
        ResumeStep(s + t, start, eq, quote);
        ReadMore(s, t, quote + 2);
        Front(s, t, start, eq); Front(s, t, eq + 2, quote);
        var p, r := Pair(s[start..eq], s[eq + 2..quote]), Resume(s, quote + 2);
        assert ([p] + Read(s, quote + 2).1) + Read(s + t, r).1 == [p] + (Read(s, quote + 2).1 + Read(s + t, r).1);
    }
  }

  /** What comes back of the added parameters: the first takes along what the reader had not consumed. */
  function Arriving(s: string, added: seq<Pair>): seq<Pair> {
    if added == [] || Closed(s) then added
    else [Pair(s[Resume(s, 0)..] + " " + added[0].key, added[0].val)] + added[1..]
  }

  lemma ArrivingChanged(s: string, orig: seq<Pair>, added: seq<Pair>)
    ensures orig + Arriving(s, added) == orig + added <==> added == [] || Closed(s)
  {
    if added != [] && !Closed(s) {
      assert (orig + Arriving(s, added))[|orig|] == Arriving(s, added)[0] && (orig + added)[|orig|] == added[0];
      assert |Arriving(s, added)[0].key| > |added[0].key|;
    }
  }

  /** Any text that is read well, followed by added parameters. */
  lemma ReadDecorated(s: string, added: seq<Pair>)
    requires Read(s, 0).0 && forall p | p in added :: Readable(p)
    ensures Read(s + Added(added), 0) == (true, Read(s, 0).1 + Arriving(s, added))
    ensures Read(s + Added(added), 0) == (true, Read(s, 0).1 + added) <==> added == [] || Closed(s)
  {
    ArrivingChanged(s, Read(s, 0).1, added);
    if added == [] {
      assert s + "" == s && Read(s, 0).1 + [] == Read(s, 0).1;
    } else {
      ReadMore(s, Added(added), 0);
      if Closed(s) { ReadAfterQuote(s, added); } else { ReadUnread(s, Resume(s, 0), added); }
    }
  }

  lemma ReadAfterQuote(s: string, added: seq<Pair>)
    requires added != [] && forall p | p in added :: Readable(p)
    ensures Read(s + Added(added), |s| + 1) == (true, added)
  {
    hide Read, Params, Added;
    AddedIsParams(added);
    ReadParams(s + " ", added);
    Joined(s, " ", Params(added));
  }

  lemma ReadUnread(s: string, r: nat, added: seq<Pair>)
    requires r <= |s| && Find(s, '=', r).None? && added != [] && forall p | p in added :: Readable(p)
    ensures Read(s + Added(added), r) ==
            (true, [Pair(s[r..] + " " + added[0].key, added[0].val)] + added[1..])
  {
    var arriving := [Pair(s[r..] + " " + added[0].key, added[0].val)] + added[1..];
    UnreadKey(s, r, added[0]);
    forall p | p in arriving ensures Readable(p) { if p != arriving[0] { assert p in added; } }
    hide Read, Params, Added, Find, Absent, Readable;
    AddedIsParams(added);
    LedParams(s[r..] + " ", added);
    ReadParams(s[..r], arriving);
    UnreadText(s, r, Params(added));
  }

  lemma UnreadText(s: string, r: nat, text: string)
    requires r <= |s|
    ensures s[..r] + (s[r..] + " " + text) == s + (" " + text)
  {
    assert s[..r] + s[r..] == s;
  }

  lemma UnreadKey(s: string, r: nat, p: Pair)
    requires r <= |s| && Find(s, '=', r).None? && Readable(p)
    ensures Readable(Pair(s[r..] + " " + p.key, p.val))
  {
    assert forall i | 0 <= i < |s| - r :: s[r..][i] == s[r + i];
  }

  lemma LedParams(lead: string, added: seq<Pair>)
    requires added != []
    ensures Params([Pair(lead + added[0].key, added[0].val)] + added[1..]) == lead + Params(added)
  {
    var led := [Pair(lead + added[0].key, added[0].val)] + added[1..];
    assert led[1..] == added[1..];
    LedParam(lead, added[0]);
    hide Param;
    Joined(lead, Param(added[0]), " "); Joined(lead, Param(added[0]) + " ", Params(added[1..]));
  }

  lemma LedParam(lead: string, p: Pair)
    ensures Param(Pair(lead + p.key, p.val)) == lead + Param(p)
  {
  }

  /** Parameters written one space apart are read as they are, and leave the text closed. */
  lemma {:induction false} ClosedParams(pre: string, ps: seq<Pair>)
    requires (forall p | p in ps :: Readable(p)) && ps != []
    ensures Resume(pre + Params(ps), |pre|) == |pre + Params(ps)| + 1
    decreases |ps|
  {
    hide Param, Resume;
    assert ps[0] in ps;
    var rest := if |ps| == 1 then "" else " " + Params(ps[1..]);
    var s := pre + Param(ps[0]) + rest;
    assert pre + Params(ps) == s;
    ResumeParam(s, pre, ps[0], rest);
    if |ps| == 1 {
      ResumeStop(s, |s| + 1);
    } else {
      var pre' := pre + Param(ps[0]) + " ";
      ClosedParams(pre', ps[1..]);
      assert pre' + Params(ps[1..]) == s;
    }
  }

  lemma ResumeStop(s: string, start: nat)
    requires Find(s, '=', start).None?
    ensures Resume(s, start) == start
  {
  }

  lemma ResumeParam(s: string, pre: string, p: Pair, rest: string)
    requires s == pre + Param(p) + rest && Readable(p)
    ensures Resume(s, |pre|) == Resume(s, |pre| + |Param(p)| + 1)
  {
    ParamFinds(s, pre, p, rest); ParamLength(p);
    hide Find, Absent, Resume, Param;
    ResumeStep(s, |pre|, |pre| + |p.key|, |pre| + |p.key| + 2 + |p.val|);
  }

  lemma ResumeStep(s: string, start: nat, eq: nat, quote: nat)
    requires Find(s, '=', start) == Some(eq) && Find(s, '\"', eq + 2) == Some(quote)
    ensures Resume(s, start) == Resume(s, quote + 2)
  {
    hide Find, Absent;
  }

  lemma AddedIsParams(added: seq<Pair>)
    requires added != []
    ensures Added(added) == " " + Params(added)
  {
    hide Param;
    ParamsAdded([added[0]], added[1..]);
    assert [added[0]] + added[1..] == added;
  }

  lemma AddedNone()
    ensures Added([]) == ""
  {
  }

  /** The first pair with a key. */
  function FirstPair(ps: seq<Pair>, key: string): Option<Pair> {
    if ps == [] then None else if ps[0].key == key then Some(ps[0]) else FirstPair(ps[1..], key)
  }

  /** A key keeps the value it had, or takes the one that comes first. */
  lemma {:induction false} StoredFirst(v: map<string, Holder>, ps: seq<Pair>, ints: seq<string>, key: string)
    ensures var r := StoredAll(v, ps, ints);
            if key in v then key in r && r[key] == v[key]
            else match FirstPair(ps, key)
              case None => key !in r
              case Some(p) =>
                && key in r && p.key == key
                && r[key] == if key in ints then IntField(Atol(p.val)) else TextField(p.val)
    decreases |ps|
  {
    if ps != [] { StoredFirst(Stored(v, ps[0], ints), ps[1..], ints, key); }
  }
}
