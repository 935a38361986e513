/**
 The numbered text of a set of positions, such as "1-3,7": how it is printed from a list of
 runs, an independent decoder, and the proof that decoding recovers the runs.
 */
module NumberedText {
  import opened Options

  /** The positions `low` to `high`, both included. */
  datatype Run = Run(low: nat, high: nat)

  // ---- decimal numbers

  function Digit(d: nat): char
    requires d < 10
  {
    '0' + d as char
  }

  predicate IsDigit(c: char) {
    '0' <= c <= '9'
  }

  function DigitValue(c: char): nat
    requires IsDigit(c)
  {
    c as nat - '0' as nat
  }

  /** The decimal text of a number (`integerToString`). */
  function Decimal(n: nat): string {
    if n < 10 then [Digit(n)] else Decimal(n / 10) + [Digit(n % 10)]
  }

  function DigitsLength(s: string): (n: nat)
    ensures n <= |s|
    ensures forall i | 0 <= i < n :: IsDigit(s[i])
    ensures n < |s| ==> !IsDigit(s[n])
  {
    if s == "" || !IsDigit(s[0]) then 0 else 1 + DigitsLength(s[1..])
  }

  function Value(digits: string): nat
    requires forall i | 0 <= i < |digits| :: IsDigit(digits[i])
  {
    if digits == "" then 0
    else 10 * Value(digits[..|digits| - 1]) + DigitValue(digits[|digits| - 1])
  }

  lemma {:induction false} DecimalValue(n: nat)
    ensures |Decimal(n)| > 0 && forall i | 0 <= i < |Decimal(n)| :: IsDigit(Decimal(n)[i])
    ensures Value(Decimal(n)) == n
  {
    if n >= 10 {
      DecimalValue(n / 10);
      assert Decimal(n)[..|Decimal(n)| - 1] == Decimal(n / 10);
    } else {
      assert Decimal(n)[..0] == "";
    }
  }

  lemma DecimalPrefix(n: nat, rest: string)
    requires rest != "" ==> !IsDigit(rest[0])
    ensures DigitsLength(Decimal(n) + rest) == |Decimal(n)|
  {
    DecimalValue(n);
    var s := Decimal(n) + rest;
    assert forall i | 0 <= i < |Decimal(n)| :: s[i] == Decimal(n)[i];
    assert rest != "" ==> s[|Decimal(n)|] == rest[0];
  }

  // ---- printing

  function PrintRun(r: Run): string {
    if r.low == r.high then Decimal(r.low) else Decimal(r.low) + "-" + Decimal(r.high)
  }

  /** Runs separated by commas. */
  function PrintRuns(runs: seq<Run>): string
    requires |runs| > 0
  {
    if |runs| == 1 then PrintRun(runs[0])
    else PrintRuns(runs[..|runs| - 1]) + "," + PrintRun(runs[|runs| - 1])
  }

  /** The empty list prints as a dash. */
  function Print(runs: seq<Run>): string {
    if runs == [] then "-" else PrintRuns(runs)
  }

  /** The text as it looks. */
  lemma PrintSample()
    ensures Print([]) == "-" && Print([Run(7, 7)]) == "7" && Print([Run(1, 3), Run(10, 12)]) == "1-3,10-12"
  {
    var runs := [Run(1, 3), Run(10, 12)];
    assert runs[..1] == [Run(1, 3)];
    assert Decimal(1) == "1" && Decimal(10) == "10" && Decimal(12) == "12";
  }

  // ---- decoding

  /** Reads a number off the front. */
  function ReadNumber(s: string): Option<(nat, string)> {
    var n := DigitsLength(s);
    if n == 0 then None else Some((Value(s[..n]), s[n..]))
  }

  /** Reads "low" or "low-high" off the front. */
  function ReadRun(s: string): (r: Option<(Run, string)>)
    ensures r.Some? ==> |r.value.1| < |s|
  {
    match ReadNumber(s)
    case None => None
    case Some((low, rest)) =>
      if rest != "" && rest[0] == '-' then
        match ReadNumber(rest[1..])
        case None => None
        case Some((high, rest')) => Some((Run(low, high), rest'))
      else Some((Run(low, low), rest))
  }

  function DecodeRuns(s: string): Option<seq<Run>>
    decreases |s|
  {
    match ReadRun(s)
    case None => None
    case Some((r, rest)) =>
      if rest == "" then Some([r])
      else if rest[0] != ',' then None
      else match DecodeRuns(rest[1..])
        case None => None
        case Some(rs) => Some([r] + rs)
  }

  function Decode(s: string): Option<seq<Run>> {
    if s == "-" then Some([]) else DecodeRuns(s)
  }

  lemma ReadDecimal(n: nat, rest: string)
    requires rest != "" ==> !IsDigit(rest[0])
    ensures ReadNumber(Decimal(n) + rest) == Some((n, rest))
  {
    DecimalPrefix(n, rest); DecimalValue(n);
    assert (Decimal(n) + rest)[..|Decimal(n)|] == Decimal(n);
  }

  lemma ReadPrinted(r: Run, rest: string)
    requires rest != "" ==> rest[0] == ','
    ensures ReadRun(PrintRun(r) + rest) == Some((r, rest))
  {
    hide Decimal, ReadNumber;
    if r.low == r.high {
      ReadDecimal(r.low, rest);
    } else {
      var tail := "-" + Decimal(r.high) + rest;
      ReadDecimal(r.low, tail);
      ReadDecimal(r.high, rest);
      assert PrintRun(r) + rest == Decimal(r.low) + tail;
      assert tail[1..] == Decimal(r.high) + rest;
    }
  }

  lemma {:induction false} PrintFront(r: Run, rs: seq<Run>)
    requires |rs| > 0
    ensures PrintRuns([r] + rs) == PrintRun(r) + "," + PrintRuns(rs)
  {
    hide PrintRun;
    var all := [r] + rs;
    var last := PrintRun(rs[|rs| - 1]);
    assert all[|all| - 1] == rs[|rs| - 1];
    if |rs| == 1 {
      assert all[..1] == [r];
    } else {
      var front := rs[..|rs| - 1];
      assert all[..|all| - 1] == [r] + front;
      PrintFront(r, front);
      assert PrintRuns(all) == (PrintRun(r) + "," + PrintRuns(front)) + "," + last;
      assert PrintRuns(rs) == PrintRuns(front) + "," + last;
    }
  }

  lemma {:induction false} DecodePrintRuns(runs: seq<Run>)
    requires |runs| > 0
    ensures DecodeRuns(PrintRuns(runs)) == Some(runs)
  {
    hide ReadRun, PrintRun;
    var r := runs[0];
    if |runs| == 1 {
      ReadPrinted(r, "");
      assert PrintRun(r) + "" == PrintRun(r);
      assert runs == [r];
    } else {
      var rs := runs[1..];
      assert runs == [r] + rs;
      PrintFront(r, rs);
      var tail := "," + PrintRuns(rs);
      assert PrintRuns(runs) == PrintRun(r) + tail;
      ReadPrinted(r, tail);
      assert tail[1..] == PrintRuns(rs);
      DecodePrintRuns(rs);
    }
  }

  /** Decoding the printed text gives back the runs. */
  lemma DecodePrint(runs: seq<Run>)
    ensures Decode(Print(runs)) == Some(runs)
  {
    if runs != [] {
      DecodePrintRuns(runs);
      assert DigitsLength("-") == 0;
    }
  }

  // ---- the runs of a set

  /** Non-empty runs in ascending order with a gap between neighbours: none can be extended or joined. */
  ghost predicate Separated(runs: seq<Run>) {
    && (forall i | 0 <= i < |runs| :: runs[i].low <= runs[i].high)
    && (forall i, j | 0 <= i < j < |runs| :: runs[i].high + 1 < runs[j].low)
  }

  ghost predicate MaximalRuns(elems: set<nat>, runs: seq<Run>) {
    Separated(runs) && forall p: nat :: p in elems <==> Covers(runs, p)
  }

  ghost predicate Covers(runs: seq<Run>, p: nat) {
    exists i :: 0 <= i < |runs| && runs[i].low <= p <= runs[i].high
  }

  ghost function Above(elems: set<nat>, high: nat): set<nat> {
    set p | p in elems && p > high
  }

  lemma FirstRun(elems: set<nat>, a: seq<Run>)
    requires MaximalRuns(elems, a) && |a| > 0
    ensures a[0].low in elems && a[0].high in elems && a[0].high + 1 !in elems
    ensures forall p | p in elems :: a[0].low <= p
    ensures forall p: nat | a[0].low <= p <= a[0].high :: p in elems
    ensures MaximalRuns(Above(elems, a[0].high), a[1..])
  {
    var rest := Above(elems, a[0].high);
    forall p: nat | a[0].low <= p <= a[0].high ensures Covers(a, p) {}
    assert !Covers(a, a[0].high + 1);
    forall p: nat ensures p in rest <==> Covers(a[1..], p) {
      if p in rest {
        assert Covers(a, p);
        var i :| 0 <= i < |a| && a[i].low <= p <= a[i].high;
        assert a[1..][i - 1] == a[i];
      }
      if Covers(a[1..], p) {
        var i :| 0 <= i < |a[1..]| && a[1..][i].low <= p <= a[1..][i].high;
        assert a[i + 1] == a[1..][i] && Covers(a, p);
      }
    }
  }

  /** A set has only one list of maximal runs. */
  lemma {:induction false} RunsUnique(elems: set<nat>, a: seq<Run>, b: seq<Run>)
    requires MaximalRuns(elems, a) && MaximalRuns(elems, b)
    ensures a == b
    decreases |a|
  {
    if |a| > 0 { FirstRun(elems, a); assert Covers(b, a[0].low); }
    if |b| > 0 { FirstRun(elems, b); assert Covers(a, b[0].low); }
    if |a| > 0 && |b| > 0 {
      assert a[0].low == b[0].low && a[0].high == b[0].high;
      RunsUnique(Above(elems, a[0].high), a[1..], b[1..]);
      assert a == [a[0]] + a[1..] && b == [b[0]] + b[1..];
    }
  }

  // ---- building the text from the positions in ascending order

  /** The text while the last run may still grow: its upper end is not yet written. */
  function PrintOpen(runs: seq<Run>): string
    requires |runs| > 0
  {
    var n := |runs| - 1;
    (if n == 0 then "" else PrintRuns(runs[..n]) + ",") + Decimal(runs[n].low)
  }

  function UpperEnd(run: Run): string {
    if run.low < run.high then "-" + Decimal(run.high) else ""
  }

  lemma ClosedRun(run: Run)
    requires run.low <= run.high
    ensures Decimal(run.low) + UpperEnd(run) == PrintRun(run)
  {
    hide Decimal;
  }

  lemma Regroup(a: string, b: string, c: string)
    ensures (a + b) + c == a + (b + c)
  {
  }

  lemma CloseRun(runs: seq<Run>)
    requires |runs| > 0 && runs[|runs| - 1].low <= runs[|runs| - 1].high
    ensures PrintOpen(runs) + UpperEnd(runs[|runs| - 1]) == PrintRuns(runs)
  {
    hide Decimal;
    var last := runs[|runs| - 1];
    ClosedRun(last);
    hide UpperEnd, PrintRun;
    if |runs| > 1 { Regroup(PrintRuns(runs[..|runs| - 1]) + ",", Decimal(last.low), UpperEnd(last)); }
  }

  lemma ExtendRun(elems: set<nat>, runs: seq<Run>, p: nat)
    requires MaximalRuns(elems, runs) && |runs| > 0 && runs[|runs| - 1].high + 1 == p
    ensures MaximalRuns(elems + {p}, runs[|runs| - 1 := Run(runs[|runs| - 1].low, p)])
  {
    var n := |runs| - 1;
    var runs' := runs[n := Run(runs[n].low, p)];
    forall q: nat ensures q in elems + {p} <==> Covers(runs', q) {
      if Covers(runs, q) {
        var i :| 0 <= i < |runs| && runs[i].low <= q <= runs[i].high;
        assert runs'[i].low <= q <= runs'[i].high;
      }
      assert runs'[n].low <= p <= runs'[n].high;
    }
  }

  lemma AddRun(elems: set<nat>, runs: seq<Run>, p: nat)
    requires MaximalRuns(elems, runs) && (|runs| > 0 ==> runs[|runs| - 1].high + 1 < p)
    ensures MaximalRuns(elems + {p}, runs + [Run(p, p)])
  {
    var runs' := runs + [Run(p, p)];
    forall q: nat ensures q in elems + {p} <==> Covers(runs', q) {
      if Covers(runs, q) {
        var i :| 0 <= i < |runs| && runs[i].low <= q <= runs[i].high;
        assert runs'[i].low <= q <= runs'[i].high;
      }
      assert runs'[|runs|].low <= p <= runs'[|runs|].high;
    }
  }

  /** The runs once position `p`, above all of them, is added. */
  function Grow(runs: seq<Run>, p: nat): seq<Run> {
    var n := |runs| - 1;
    if |runs| > 0 && runs[n].high + 1 == p then runs[n := Run(runs[n].low, p)] else runs + [Run(p, p)]
  }

  /** The printer's state once the positions `elems` were seen: the last run is still open. */
  ghost predicate OpenText(elems: set<nat>, runs: seq<Run>, range: bool, text: string) {
    && MaximalRuns(elems, runs)
    && (if runs == [] then text == "" else
        range == (runs[|runs| - 1].low < runs[|runs| - 1].high) && text == PrintOpen(runs))
  }

  lemma OpenEmpty(range: bool)
    ensures OpenText({}, [], range, "")
  {
  }

  lemma OpenFirst(elems: set<nat>, range: bool, text: string, p: nat)
    requires OpenText(elems, [], range, text)
    ensures OpenText(elems + {p}, [Run(p, p)], false, text + Decimal(p))
  {
    AddRun(elems, [], p);
  }

  lemma OpenExtend(elems: set<nat>, runs: seq<Run>, range: bool, text: string, p: nat)
    requires OpenText(elems, runs, range, text) && |runs| > 0 && runs[|runs| - 1].high + 1 == p
    ensures OpenText(elems + {p}, Grow(runs, p), true, text)
    ensures runs[|runs| - 1].low < p
  {
    ExtendRun(elems, runs, p);
    assert Grow(runs, p)[..|runs| - 1] == runs[..|runs| - 1];
  }

  lemma OpenNext(elems: set<nat>, runs: seq<Run>, range: bool, text: string, p: nat)
    requires OpenText(elems, runs, range, text) && |runs| > 0 && runs[|runs| - 1].high + 1 < p
    ensures OpenText(elems + {p}, Grow(runs, p), false, text + UpperEnd(runs[|runs| - 1]) + "," + Decimal(p))
  {
    AddRun(elems, runs, p);
    NextText(runs, p);
  }

  lemma NextText(runs: seq<Run>, p: nat)
    requires |runs| > 0 && runs[|runs| - 1].low <= runs[|runs| - 1].high && runs[|runs| - 1].high + 1 < p
    ensures PrintOpen(Grow(runs, p)) == PrintOpen(runs) + UpperEnd(runs[|runs| - 1]) + "," + Decimal(p)
  {
    hide Decimal;
    CloseRun(runs);
    assert Grow(runs, p)[..|runs|] == runs;
  }

  lemma CloseText(elems: set<nat>, runs: seq<Run>, range: bool, text: string)
    requires OpenText(elems, runs, range, text) && |runs| > 0
    ensures Decode(text + UpperEnd(runs[|runs| - 1])) == Some(runs) && MaximalRuns(elems, runs)
  {
    hide Decode;
    CloseRun(runs); DecodePrint(runs);
  }
}
