/**
 The body of a structured syslog message: how its parameters are cut out, and when a message that
 was decorated reads back as it should.
 */
module SyslogBodies {
  import opened Options
  import opened StructuredSyslog

  datatype Element = Element(tag: string, hardware: string, part: string)

  /**
   How the caller cuts a body: the tag ends at the first space, the hardware at the second, and the
   parameters at the next bracket. A length that is negative or runs past the end takes all that is left.
   */
  function Extract(body: string): Option<Element> {
    if !HasElement(body) then None
    else match Find(body, ' ', 0)
      case None => None
      case Some(s1) =>
        match Find(body, ' ', s1 + 1)
        case None => None
        case Some(s2) =>
          var rest := Find(body, ']', s2 + 1);
          Some(Cut(body, s1, s2, if rest.None? then |body| else rest.value))
  }

  /** The caller wants an opening bracket and a closing one after it. */
  predicate HasElement(body: string) {
    Find(body, '[', 0).Some? && Find(body, ']', Find(body, '[', 0).value + 1).Some?
  }

  function Cut(body: string, s1: nat, s2: nat, end: nat): Element
    requires s1 < s2 < end <= |body|
  {
    Element(body[..s1], if s2 == s1 + 1 then body[s2 + 1..] else body[s1 + 2..s2], body[s2 + 1..end])
  }

  /** The second space of the text before the bracket. */
  function SecondSpace(head: string): Option<nat> {
    match Find(head, ' ', 0)
    case None => None
    case Some(s1) => Find(head, ' ', s1 + 1)
  }

  /** The parameters in the text before the bracket. */
  function ParamText(head: string): string {
    match SecondSpace(head)
    case None => ""
    case Some(s2) => head[s2 + 1..]
  }

  /** The cut of a body with two spaces before its first closing bracket. */
  lemma ExtractIs(head: string, rest: string)
    requires ']' !in head && SecondSpace(head).Some? && rest != "" && rest[0] == ']' && HasElement(head + rest)
    ensures var s1, s2 := Find(head, ' ', 0).value, SecondSpace(head).value;
            var e := Extract(head + rest);
            && e.Some? && e.value.tag == head[..s1] && e.value.part == ParamText(head)
            && (s2 != s1 + 1 ==> e.value.hardware == head[s1 + 2..s2])
  {
    hide Find, Extract, Absent, HasElement;
    var s1, s2 := Find(head, ' ', 0).value, SecondSpace(head).value;
    FindMember(head, ']', s2 + 1);
    FindInFront(head, rest, ' ', 0); FindInFront(head, rest, ' ', s1 + 1);
    FindBehind(head, rest, ']', s2 + 1);
    ExtractAt(head + rest, s1, s2, |head|);
    Front(head, rest, 0, s1); Front(head, rest, s2 + 1, |head|);
    if s2 != s1 + 1 { Front(head, rest, s1 + 2, s2); }
  }

  lemma ExtractAt(body: string, s1: nat, s2: nat, end: nat)
    requires HasElement(body) && Find(body, ' ', 0) == Some(s1) && Find(body, ' ', s1 + 1) == Some(s2)
    requires Find(body, ']', s2 + 1) == Some(end)
    ensures Extract(body) == Some(Cut(body, s1, s2, end))
  {
    hide Find, Absent, Cut, HasElement;
  }

  /**
   A cut without searching: the body is the tag, a space, what stands before the second space, a space, the
   parameters up to the next closing bracket, and the rest. The hardware loses its first character, the bracket;
   when there is nothing to lose it is all that follows.
   */
  predicate Pieces(body: string, e: Element, middle: string, rest: string) {
    && body == e.tag + " " + middle + " " + e.part + rest
    && ' ' !in e.tag && ' ' !in middle && ']' !in e.part && (rest != "" ==> rest[0] == ']')
    && e.hardware == if middle == "" then e.part + rest else middle[1..]
  }

  lemma CutMeaning(body: string) returns (middle: string, rest: string)
    requires Extract(body).Some?
    ensures Pieces(body, Extract(body).value, middle, rest)
  {
    hide Pieces, Absent, HasElement;
    var s1 := Find(body, ' ', 0).value;
    var s2 := Find(body, ' ', s1 + 1).value;
    var close := Find(body, ']', s2 + 1);
    middle, rest := CutPieces(body, s1, s2, if close.None? then |body| else close.value);
  }

  lemma CutPieces(body: string, s1: nat, s2: nat, end: nat) returns (middle: string, rest: string)
    requires s1 < s2 < end <= |body| && body[s1] == ' ' && body[s2] == ' ' && (end < |body| ==> body[end] == ']')
    requires Absent(body, ' ', 0, s1) && Absent(body, ' ', s1 + 1, s2) && Absent(body, ']', s2 + 1, end)
    ensures Pieces(body, Cut(body, s1, s2, end), middle, rest)
  {
    middle, rest := body[s1 + 1..s2], body[end..];
    AbsentFrom(body, ' ', 0, s1); AbsentFrom(body, ' ', s1 + 1, s2); AbsentFrom(body, ']', s2 + 1, end);
    hide Absent;
    CutText(body, s1, s2, end);
    assert body[s2 + 1..end] + rest == body[s2 + 1..];
    assert middle != "" ==> middle[1..] == body[s1 + 2..s2];
  }

  lemma CutText(body: string, s1: nat, s2: nat, end: nat)
    requires s1 < s2 < end <= |body| && body[s1] == ' ' && body[s2] == ' '
    ensures body == body[..s1] + " " + body[s1 + 1..s2] + " " + body[s2 + 1..end] + body[end..]
  {
    assert body[..s1] + " " == body[..s1 + 1];
    assert body[..s1 + 1] + body[s1 + 1..s2] == body[..s2];
    assert body[..s2] + " " == body[..s2 + 1];
    assert body[..s2 + 1] + body[s2 + 1..end] == body[..end];
  }

  lemma AbsentFrom(s: string, c: char, from: nat, to: nat)
    requires from <= to <= |s| && Absent(s, c, from, to)
    ensures c !in s[from..to]
  {
  }

  /** Which bodies are cut: an opening bracket with a closing one somewhere behind it, and two spaces. */
  lemma CutExactly(body: string)
    ensures HasElement(body) <==> exists i, j :: 0 <= i < j < |body| && body[i] == '[' && body[j] == ']'
    ensures Extract(body).Some? <==>
            HasElement(body) && exists i, j :: 0 <= i < j < |body| && body[i] == ' ' && body[j] == ' '
  {
    if i, j :| 0 <= i < j < |body| && body[i] == '[' && body[j] == ']' {
      FindSome(body, '[', 0, i);
      FindSome(body, ']', Find(body, '[', 0).value + 1, j);
    }
    if i, j :| 0 <= i < j < |body| && body[i] == ' ' && body[j] == ' ' {
      FindSome(body, ' ', 0, i);
      FindSome(body, ' ', Find(body, ' ', 0).value + 1, j);
    }
  }

  /** Text put before a closing bracket does not take the element away. */
  lemma ElementStays(head: string, more: string, rest: string)
    requires HasElement(head + rest) && rest != "" && rest[0] == ']'
    ensures HasElement(head + more + rest)
  {
    hide Absent;
    var body, longer := head + rest, head + more + rest;
    var open := Find(body, '[', 0).value;
    var close := Find(body, ']', open + 1).value;
    if open < |head| {
      FindSome(longer, '[', 0, open);
      FindSome(longer, ']', Find(longer, '[', 0).value + 1, |head| + |more|);
    } else {
      assert longer[open + |more|] == body[open] && longer[close + |more|] == body[close];
      FindSome(longer, '[', 0, open + |more|);
      FindSome(longer, ']', Find(longer, '[', 0).value + 1, close + |more|);
    }
  }

  /** Text that starts with a space does not move a second space, and supplies one that is missing. */
  lemma SpacesAfter(head: string, more: string)
    requires Find(head, ' ', 0).Some?
    requires if more == "" then SecondSpace(head).Some? else more[0] == ' '
    ensures Find(head + more, ' ', 0) == Find(head, ' ', 0)
    ensures SecondSpace(head + more) == if SecondSpace(head).Some? then SecondSpace(head) else Some(|head|)
    ensures ParamText(head + more) == if SecondSpace(head).Some? then ParamText(head) + more else more[1..]
  {
    hide Find, Absent;
    var s1 := Find(head, ' ', 0).value;
    FindInFront(head, more, ' ', 0);
    if SecondSpace(head).Some? { FindInFront(head, more, ' ', s1 + 1); } else { FindBehind(head, more, ' ', s1 + 1); }
  }

  /** The text before the first closing bracket. */
  function Head(body: string): string {
    match Find(body, ']', 0)
    case None => body
    case Some(close) => body[..close]
  }

  lemma HeadIs(body: string) returns (rest: string)
    requires HasElement(body)
    ensures body == Head(body) + rest && rest != "" && rest[0] == ']' && ']' !in Head(body)
  {
    FindSome(body, ']', 0, Find(body, ']', Find(body, '[', 0).value + 1).value);
    rest := body[Find(body, ']', 0).value..];
  }

  /** The message is decorated and its body, after the header, cut again. */
  function Reread(header: string, body: string, added: seq<Pair>): Option<Element> {
    var msg := DecoratedAll(header + body, added, 0);
    if |msg| < |header| then None else Extract(msg[|header|..])
  }

  /** The added parameters stand at the end of the head. */
  lemma RereadIs(header: string, head: string, rest: string, added: seq<Pair>)
    requires ']' !in header && ']' !in head && rest != "" && rest[0] == ']' && HasElement(head + rest)
    requires forall p | p in added :: NoBracket(p)
    ensures Reread(header, head + rest, added) == Extract(head + Added(added) + rest)
    ensures HasElement(head + Added(added) + rest)
  {
    hide Added, DecoratedAll, Find, Absent, HasElement, Extract;
    var more, tail := Added(added), rest[1..];
    DecoratedMessage(header + head, added, tail, 0);
    assert rest == "]" + tail;
    Joined(header, head, rest); Joined(header + head, "]", tail);
    Joined(header + head + more, "]", tail); Joined(header, head, more); Joined(header, head + more, rest);
    assert (header + (head + more + rest))[|header|..] == head + more + rest;
    ElementStays(head, more, rest);
  }

  /** Decorated and cut again, the body has its tag and gives its parameters followed by the added ones. */
  ghost predicate Survives(header: string, body: string, added: seq<Pair>)
    requires Extract(body).Some?
  {
    var was, now := Extract(body).value, Reread(header, body, added);
    now.Some? && now.value.tag == was.tag && Read(now.value.part, 0) == (true, Read(was.part, 0).1 + added)
  }

  /**
   What it takes, looking at the body: a space before the first closing bracket; and either a second one, with
   parameters after it that end with a closing quote, or none and no parameters anywhere.
   */
  predicate Ready(body: string)
    requires Extract(body).Some?
  {
    var head := Head(body);
    && Find(head, ' ', 0).Some?
    && if SecondSpace(head).Some? then Closed(ParamText(head)) else Read(Extract(body).value.part, 0).1 == []
  }

  /**
   For every body that is cut and read well: decorating the message and reading it back gives the tag and the
   parameters it had, then the ones added, in order, if and only if none are added or the body is ready.
   */
  lemma DecorateThenExtract(header: string, body: string, added: seq<Pair>)
    requires ']' !in header && Extract(body).Some? && Read(Extract(body).value.part, 0).0
    requires forall p | p in added :: Readable(p) && NoBracket(p)
    ensures Survives(header, body, added) <==> added == [] || Ready(body)
  {
    var rest := HeadIs(body);
    var head := Head(body);
    hide Read, Extract, Find, Absent, HasElement, Head, Closed, Survives, Reread, Readable, NoBracket;
    hide SecondSpace, ParamText;
    if added == [] {
      NothingAdded(header, body);
    } else if Find(head, ' ', 0).None? {
      NoTagSpace(header, head, rest, added);
    } else if SecondSpace(head).None? {
      NoHardwareSpace(header, head, rest, added);
    } else {
      ExtractIs(head, rest);
      TwoSpaces(header, head, rest, added);
    }
  }

  lemma NothingAdded(header: string, body: string)
    requires Extract(body).Some? && Read(Extract(body).value.part, 0).0
    ensures Survives(header, body, [])
  {
    hide Read, Extract;
    assert (header + body)[|header|..] == body;
    assert Read(Extract(body).value.part, 0).1 + [] == Read(Extract(body).value.part, 0).1;
  }

  /** A body that is cut, by the text before its first closing bracket and the rest. */
  ghost predicate Parts(header: string, head: string, rest: string, added: seq<Pair>) {
    && ']' !in header && ']' !in head && rest != "" && rest[0] == ']' && Extract(head + rest).Some?
    && forall p | p in added :: Readable(p) && NoBracket(p)
  }

  /** Two spaces before the bracket: the parameters come back as they arrive behind the text before them. */
  lemma TwoSpaces(header: string, head: string, rest: string, added: seq<Pair>)
    requires Parts(header, head, rest, added) && SecondSpace(head).Some? && Read(ParamText(head), 0).0
    ensures var now, text := Reread(header, head + rest, added), ParamText(head);
            && now.Some? && now.value.tag == Extract(head + rest).value.tag
            && Read(now.value.part, 0) == (true, Read(text, 0).1 + Arriving(text, added))
    ensures Survives(header, head + rest, added) <==> added == [] || Closed(ParamText(head))
  {
    var more := Added(added);
    RereadIs(header, head, rest, added);
    TextNoBracket(added);
    if added == [] { AddedNone(); } else { AddedIsParams(added); }
    SpacesAfter(head, more);
    ReadDecorated(ParamText(head), added);
    hide Read, Params, Added, Extract, Find, Absent, HasElement, Closed, Arriving, Reread, ParamText;
    hide Readable, NoBracket;
    ExtractIs(head, rest);
    ExtractIs(head + more, rest);
    Front(head, more, 0, Find(head, ' ', 0).value);
  }

  /** One space before the bracket: the first added parameter supplies the second, and only added ones come back. */
  lemma NoHardwareSpace(header: string, head: string, rest: string, added: seq<Pair>)
    requires Parts(header, head, rest, added) && added != []
    requires Find(head, ' ', 0).Some? && SecondSpace(head).None?
    ensures var now := Reread(header, head + rest, added);
            now.Some? && now.value.tag == Extract(head + rest).value.tag && Read(now.value.part, 0) == (true, added)
    ensures Survives(header, head + rest, added) <==> Read(Extract(head + rest).value.part, 0).1 == []
  {
    var more := Added(added);
    RereadIs(header, head, rest, added);
    TextNoBracket(added);
    AddedIsParams(added);
    SpacesAfter(head, more);
    TagIs(head + rest);
    hide Read, Params, Added, Extract, Find, Absent, HasElement, Reread, Readable, NoBracket;
    ExtractIs(head + more, rest);
    FindInFront(head, rest, ' ', 0);
    Front(head, more, 0, Find(head, ' ', 0).value); Front(head, rest, 0, Find(head, ' ', 0).value);
    ReadParams("", added);
    assert "" + Params(added) == Params(added);
    Leading(Read(Extract(head + rest).value.part, 0).1, added);
  }

  lemma Leading(orig: seq<Pair>, added: seq<Pair>)
    ensures orig + added == added <==> orig == []
  {
    assert |orig + added| == |orig| + |added|;
  }

  lemma TagIs(body: string)
    requires Extract(body).Some?
    ensures Find(body, ' ', 0).Some? && Extract(body).value.tag == body[..Find(body, ' ', 0).value]
  {
    hide Find, Absent, HasElement;
  }

  /** No space before the bracket: the added text ends the tag, which had run past the bracket. */
  lemma NoTagSpace(header: string, head: string, rest: string, added: seq<Pair>)
    requires Parts(header, head, rest, added) && added != [] && Find(head, ' ', 0).None?
    ensures !Survives(header, head + rest, added)
  {
    var more := Added(added);
    RereadIs(header, head, rest, added);
    AddedIsParams(added);
    Joined(head, more, rest);
    FindBehind(head, more + rest, ' ', 0);
    LaterSpace(head, rest);
    hide Read, Params, Added, Extract, HasElement, Find, Absent, Reread, Readable, NoBracket;
    TagIs(head + rest);
    if Extract(head + (more + rest)).Some? { TagIs(head + (more + rest)); }
  }

  lemma LaterSpace(head: string, rest: string)
    requires Find(head, ' ', 0).None? && rest != "" && rest[0] == ']'
    ensures Find(head + rest, ' ', 0).Some? ==> Find(head + rest, ' ', 0).value > |head|
  {
  }

  /** A body as devices write it: whether it is ready depends on its parameters alone. */
  lemma WrittenBody(tag: string, id: string, text: string, tail: string)
    requires ' ' !in tag + id && ']' !in tag + id + text
    ensures var body := tag + " [" + id + " " + text + "]" + tail;
            && Extract(body).Some? && Extract(body).value.tag == tag && Extract(body).value.part == text
            && (Ready(body) <==> Closed(text))
  {
    var lead := tag + " [" + id;
    var head, rest := lead + " " + text, "]" + tail;
    var body := tag + " [" + id + " " + text + "]" + tail;
    assert body == head + rest;
    WrittenSpaces(tag, id, text);
    assert ']' !in head && head[|tag| + 1] == '[';
    FindSome(body, '[', 0, |tag| + 1);
    FindSome(body, ']', Find(body, '[', 0).value + 1, |head|);
    assert body[0..|head|] == head;
    FindPast(body, 0, |head|, ']');
    assert Head(body) == head;
    ExtractIs(head, rest);
    assert head[..|tag|] == tag;
  }

  lemma WrittenSpaces(tag: string, id: string, text: string)
    requires ' ' !in tag + id
    ensures var head := tag + " [" + id + " " + text;
            Find(head, ' ', 0) == Some(|tag|) && SecondSpace(head) == Some(|tag| + 2 + |id|) && ParamText(head) == text
  {
    hide Find;
    var head := tag + " [" + id + " " + text;
    var s2 := |tag| + 2 + |id|;
    assert head[..|tag|] == tag && head[|tag| + 1..s2] == "[" + id && head[s2] == ' ' && head[s2 + 1..] == text;
    assert forall c | c in tag || c in id :: c in tag + id;
    FindPast(head, 0, |tag|, ' ');
    FindPast(head, |tag| + 1, s2, ' ');
  }

  /** Parameters one space apart, at least one: such a message survives any decoration. */
  lemma WrittenSurvives(header: string, tag: string, id: string, orig: seq<Pair>, tail: string, added: seq<Pair>)
    requires ']' !in header + tag + id && ' ' !in tag + id && orig != []
    requires forall p | p in orig + added :: Readable(p) && NoBracket(p)
    ensures var body := tag + " [" + id + " " + Params(orig) + "]" + tail;
            && Extract(body).Some? && Read(Extract(body).value.part, 0) == (true, orig)
            && Survives(header, body, added)
  {
    assert forall p | p in orig :: p in orig + added;
    assert forall p | p in added :: p in orig + added;
    assert forall c | c in header || c in tag || c in id :: c in header + tag + id;
    TextNoBracket(orig);
    ClosedParams("", orig);
    ReadParams("", orig);
    assert "" + Params(orig) == Params(orig);
    hide Params, Read, Extract, Survives, Ready;
    WrittenBody(tag, id, Params(orig), tail);
    DecorateThenExtract(header, tag + " [" + id + " " + Params(orig) + "]" + tail, added);
  }

  /** A space where the next parameter would start: none yet, or one after the last. */
  function LooseText(orig: seq<Pair>): string {
    if orig == [] then "" else Params(orig) + " "
  }

  lemma LooseRead(orig: seq<Pair>)
    requires forall p | p in orig :: Readable(p)
    ensures Read(LooseText(orig), 0) == (true, orig) && !Closed(LooseText(orig))
  {
    if orig == [] {
      ReadEnd("", 0); ResumeStop("", 0);
    } else {
      var text := Params(orig);
      ReadParams("", orig);
      ClosedParams("", orig);
      assert "" + text == text;
      ReadMore(text, " ", 0);
      ReadEnd(text + " ", |text| + 1); ResumeStop(text + " ", |text| + 1);
      assert orig + [] == orig;
    }
  }

  /** Such a message does not survive: the first added key comes back with a space before it. */
  lemma LooseSpace(header: string, tag: string, id: string, orig: seq<Pair>, tail: string, added: seq<Pair>)
    requires ']' !in header + tag + id && ' ' !in tag + id && added != []
    requires forall p | p in orig + added :: Readable(p) && NoBracket(p)
    ensures var body := tag + " [" + id + " " + LooseText(orig) + "]" + tail;
            && Extract(body).Some? && Read(Extract(body).value.part, 0) == (true, orig)
            && !Survives(header, body, added)
  {
    assert forall p | p in orig :: p in orig + added;
    assert forall p | p in added :: p in orig + added;
    assert forall c | c in header || c in tag || c in id :: c in header + tag + id;
    TextNoBracket(orig);
    LooseRead(orig);
    var text := LooseText(orig);
    assert ']' !in text;
    hide Params, Read, Extract, Survives, Ready, LooseText;
    WrittenBody(tag, id, text, tail);
    DecorateThenExtract(header, tag + " [" + id + " " + text + "]" + tail, added);
  }

  /** The shortest such bodies. */
  lemma LooseExamples(added: seq<Pair>)
    requires added != [] && forall p | p in added :: Readable(p) && NoBracket(p)
    ensures Extract("T [id ]").Some? && !Survives("", "T [id ]", added)
    ensures Extract("T [id k=\"v\" ]").Some? && !Survives("", "T [id k=\"v\" ]", added)
  {
    ExampleTexts();
    hide Read, Extract, Survives, LooseText;
    ExampleBody([], "", "T [id ]", added);
    ExampleBody([Pair("k", "v")], "k=\"v\" ", "T [id k=\"v\" ]", added);
  }

  lemma ExampleTexts()
    ensures LooseText([]) == "" && LooseText([Pair("k", "v")]) == "k=\"v\" "
    ensures Readable(Pair("k", "v")) && NoBracket(Pair("k", "v"))
  {
  }

  lemma ExampleBody(orig: seq<Pair>, text: string, body: string, added: seq<Pair>)
    requires text == LooseText(orig) && body == "T [id " + text + "]"
    requires added != [] && forall p | p in orig + added :: Readable(p) && NoBracket(p)
    ensures Extract(body).Some? && !Survives("", body, added)
  {
    hide *;
    LooseSpace("", "T", "id", orig, "", added);
    assert "T" + " [" + "id" + " " == "T [id ";
    assert "T [id " + text + "]" + "" == body;
  }

  /** A header with a closing bracket takes the parameters, and the body stays as it was. */
  lemma BracketInHeader(header: string, body: string, added: seq<Pair>)
    requires ']' in header && forall p | p in added :: NoBracket(p)
    ensures DecoratedAll(header + body, added, 0) == DecoratedAll(header, added, 0) + body
  {
    hide Added, DecoratedAll;
    FindMember(header, ']', 0);
    var at := Find(header, ']', 0).value;
    var front, back := header[..at], header[at + 1..];
    assert header == front + "]" + back;
    DecoratedMessage(front, added, back, 0);
    DecoratedMessage(front, added, back + body, 0);
    assert header + body == front + "]" + (back + body);
    assert front + Added(added) + "]" + (back + body) == front + Added(added) + "]" + back + body;
  }
}
