/**
 The stat walker: a stack of nested statistics that turns every pop into one record of the
 stat table, and the walk over a tree that drives it.
 */
module StatWalkers {
  import opened Options
  import opened OrderedMaps

  datatype Var = Invalid | Text(s: string) | Number(n: nat) | Double(d: real)

  /** A tag's value; a valid prefix makes it a second-level tag under the prefix. */
  datatype TagVal = TagVal(prefixName: string, prefix: Var, val: Var)

  type TagMap = Entries<TagVal>
  type AttribMap = Entries<Var>
  /** The value of a first-level tag and the second-level tags under it. */
  datatype Tag = Tag(value: Var, second: AttribMap)
  /** The multimap handed to the stat table. */
  type StatTags = Entries<Tag>

  datatype StatNode = StatNode(name: string, tags: TagMap, attribs: AttribMap)
  datatype Record = Record(name: string, tags: StatTags, attribs: AttribMap)

  // ---- names

  function Append(pre: string, name: string): string {
    if pre == "" then name else pre + "." + name
  }

  /** The names from the root down, dotted. */
  function Path(nodes: seq<StatNode>): string {
    if nodes == [] then "" else Append(Path(nodes[..|nodes| - 1]), nodes[|nodes| - 1].name)
  }

  /** The names joined by dots, without the special case for an empty prefix. */
  function Joined(nodes: seq<StatNode>): string
    requires nodes != []
  {
    if |nodes| == 1 then nodes[0].name else Joined(nodes[..|nodes| - 1]) + "." + nodes[|nodes| - 1].name
  }

  /** The path is the dotted path, except that an empty outermost name loses its dot. */
  lemma {:induction false} PathIsJoined(nodes: seq<StatNode>)
    requires nodes != []
    ensures Path(nodes) == Joined(nodes) <==> |nodes| == 1 || nodes[0].name != ""
    ensures nodes[0].name != "" ==> Path(nodes) != ""
    ensures |Path(nodes)| <= |Joined(nodes)| && (nodes[0].name == "" && |nodes| > 1 ==> |Path(nodes)| < |Joined(nodes)|)
    decreases |nodes|
  {
    if |nodes| > 1 { PathIsJoined(nodes[..|nodes| - 1]); }
  }

  /** Local names made fully qualified. */
  function Qualified<V>(pre: string, m: Entries<V>): (q: Entries<V>)
    ensures |q| == |m|
  {
    seq(|m|, i requires 0 <= i < |m| => (pre + "." + m[i].0, m[i].1))
  }

  lemma QualifiedAscending<V>(pre: string, m: Entries<V>)
    requires Ascending(m)
    ensures Ascending(Qualified(pre, m))
  {
    forall i, j | 0 <= i < j < |m| ensures Less(pre + "." + m[i].0, pre + "." + m[j].0) {
      LessPrefixed(pre + ".", m[i].0, m[j].0);
    }
  }

  // ---- tags

  function First(key: string, tv: TagVal): string {
    if tv.prefix.Invalid? then key else tv.prefixName
  }

  function FirstValue(tv: TagVal): Var {
    if tv.prefix.Invalid? then tv.val else tv.prefix
  }

  predicate IsSecond(tv: TagVal) {
    !tv.prefix.Invalid? && !tv.val.Invalid?
  }

  /** `FillTag`: adds one tag; first and second level each keep the value they already have. */
  function Filled(tags: StatTags, key: string, tv: TagVal): StatTags {
    var pname := First(key, tv);
    match Get(tags, pname)
    case None => InsertMulti(tags, pname, Tag(FirstValue(tv), if IsSecond(tv) then [(key, tv.val)] else []))
    case Some(t) =>
      if IsSecond(tv) && Get(t.second, key).None?
      then Replace(tags, pname, t.(second := Insert(t.second, key, tv.val)))
      else tags
  }

  function FillAll(tags: StatTags, list: TagMap): StatTags
    decreases |list|
  {
    if list == [] then tags else FillAll(Filled(tags, list[0].0, list[0].1), list[1..])
  }

  /** The first tag of the list with the given first-level name. */
  function FirstLevel(list: TagMap, k: string): Option<Var> {
    if list == [] then None
    else if First(list[0].0, list[0].1) == k then Some(FirstValue(list[0].1))
    else FirstLevel(list[1..], k)
  }

  /** The first second-level tag `s` of the list under the first-level name `k`. */
  function SecondLevel(list: TagMap, k: string, s: string): Option<Var> {
    if list == [] then None
    else if First(list[0].0, list[0].1) == k && IsSecond(list[0].1) && list[0].0 == s then Some(list[0].1.val)
    else SecondLevel(list[1..], k, s)
  }

  /** Unique first-level tags, each with the values that come first in the list. */
  ghost predicate Meets(tags: StatTags, list: TagMap) {
    && Ascending(tags)
    && forall k :: MeetsAt(Get(tags, k), list, k)
  }

  ghost predicate MeetsAt(found: Option<Tag>, list: TagMap, k: string) {
    match found
    case None => FirstLevel(list, k).None?
    case Some(t) =>
      && FirstLevel(list, k) == Some(t.value) && Ascending(t.second)
      && forall s :: Get(t.second, s) == SecondLevel(list, k, s)
  }

  lemma {:induction false} LevelsSnoc(list: TagMap, e: (string, TagVal), k: string, s: string)
    ensures FirstLevel(list + [e], k) ==
            if FirstLevel(list, k).Some? then FirstLevel(list, k)
            else if First(e.0, e.1) == k then Some(FirstValue(e.1)) else None
    ensures SecondLevel(list + [e], k, s) ==
            if SecondLevel(list, k, s).Some? then SecondLevel(list, k, s)
            else if First(e.0, e.1) == k && IsSecond(e.1) && e.0 == s then Some(e.1.val) else None
    ensures SecondLevel(list, k, s).Some? ==> FirstLevel(list, k).Some?
    decreases |list|
  {
    if list == [] {
      assert (list + [e])[1..] == [];
    } else {
      LevelsSnoc(list[1..], e, k, s);
      assert (list + [e])[1..] == list[1..] + [e];
    }
  }

  lemma SecondNeedsFirst(list: TagMap, k: string)
    requires FirstLevel(list, k).None?
    ensures forall s :: SecondLevel(list, k, s).None?
  {
    forall s ensures SecondLevel(list, k, s).None? { LevelsSnoc(list, ("", TagVal("", Invalid, Invalid)), k, s); }
  }

  lemma FillStep(tags: StatTags, list: TagMap, key: string, tv: TagVal)
    requires Meets(tags, list)
    ensures Meets(Filled(tags, key, tv), list + [(key, tv)])
  {
    var pname := First(key, tv);
    var more := list + [(key, tv)];
    var tags' := Filled(tags, key, tv);
    match Get(tags, pname) {
      case None => InsertAscending(tags, pname, Tag(FirstValue(tv), if IsSecond(tv) then [(key, tv.val)] else []));
      case Some(t) =>
        if IsSecond(tv) && Get(t.second, key).None? {
          ReplaceKeys(tags, pname, t.(second := Insert(t.second, key, tv.val)));
        }
    }
    forall k ensures MeetsAt(Get(tags', k), more, k) {
      FillStepAt(tags, list, key, tv, k);
    }
  }

  lemma FillStepAt(tags: StatTags, list: TagMap, key: string, tv: TagVal, k: string)
    requires MeetsAt(Get(tags, First(key, tv)), list, First(key, tv)) && MeetsAt(Get(tags, k), list, k)
    ensures MeetsAt(Get(Filled(tags, key, tv), k), list + [(key, tv)], k)
  {
    var pname := First(key, tv);
    LevelsSnoc(list, (key, tv), k, key);
    forall s { LevelsSnoc(list, (key, tv), k, s); }
    match Get(tags, pname) {
      case None =>
        SecondNeedsFirst(list, pname);
        GetInserted(tags, pname, Tag(FirstValue(tv), if IsSecond(tv) then [(key, tv.val)] else []), k);
      case Some(t) =>
        if IsSecond(tv) && Get(t.second, key).None? {
          GetReplaced(tags, pname, t.(second := Insert(t.second, key, tv.val)), k);
          InsertAscending(t.second, key, tv.val);
          forall s { GetInserted(t.second, key, tv.val, s); }
        }
    }
  }

  lemma {:induction false} FillAllMeets(tags: StatTags, done: TagMap, list: TagMap)
    requires Meets(tags, done)
    ensures Meets(FillAll(tags, list), done + list)
    decreases |list|
  {
    hide Meets, Filled;
    if list == [] {
      assert done + list == done;
    } else {
      FillStep(tags, done, list[0].0, list[0].1);
      FillAllMeets(Filled(tags, list[0].0, list[0].1), done + [list[0]], list[1..]);
      assert done + list == done + [list[0]] + list[1..];
    }
  }

  // ---- one record

  /** The tags of the nodes from the root down, in order. */
  function NodeTags(nodes: seq<StatNode>): TagMap {
    if nodes == [] then [] else NodeTags(nodes[..|nodes| - 1]) + nodes[|nodes| - 1].tags
  }

  /** Every tag that applies to the innermost node, outermost first. */
  function AllTags(top: TagMap, nodes: seq<StatNode>): TagMap {
    top + NodeTags(nodes)
  }

  /** First- and second-level tags as attributes, in the order they are inserted. */
  function Flat(tags: StatTags): AttribMap {
    if tags == [] then []
    else Flat(tags[..|tags| - 1]) + ([(tags[|tags| - 1].0, tags[|tags| - 1].1.value)] + tags[|tags| - 1].1.second)
  }

  /** The record emitted when the innermost of `nodes` is popped. */
  function Emit(top: TagMap, nodes: seq<StatNode>): Record
    requires nodes != []
  {
    var tags := FillAll([], AllTags(top, nodes));
    Record(Path(nodes), tags, InsertAll(nodes[|nodes| - 1].attribs, Flat(tags)))
  }

  /** What the first-level tag `f` gives for the attribute `k`: its own value or a second-level one. */
  function Offer(list: TagMap, f: string, k: string): Option<Var> {
    if FirstLevel(list, f).None? then None else if f == k then FirstLevel(list, f) else SecondLevel(list, f, k)
  }

  /** The attribute comes from the least first-level tag that offers it; there is none when no tag does. */
  ghost predicate Supplied(list: TagMap, k: string, found: Option<Var>) {
    match found
    case None => forall f :: Offer(list, f, k).None?
    case Some(v) =>
      exists f :: Offer(list, f, k) == Some(v) && forall g :: Offer(list, g, k).Some? ==> g == f || Less(f, g)
  }

  function EntryOffer(entry: (string, Tag), k: string): Option<Var> {
    if entry.0 == k then Some(entry.1.value) else Get(entry.1.second, k)
  }

  lemma FlatSnoc(tags: StatTags, k: string)
    requires tags != []
    ensures var front, last := tags[..|tags| - 1], tags[|tags| - 1];
            Get(Flat(tags), k) == if Get(Flat(front), k).Some? then Get(Flat(front), k) else EntryOffer(last, k)
  {
    var front, last := tags[..|tags| - 1], tags[|tags| - 1];
    var entries := [(last.0, last.1.value)] + last.1.second;
    GetAppended(Flat(front), entries, k);
    assert entries[1..] == last.1.second;
  }

  lemma {:induction false} FlatAt(tags: StatTags, k: string) returns (i: nat)
    ensures Get(Flat(tags), k).None? ==> forall j | 0 <= j < |tags| :: EntryOffer(tags[j], k).None?
    ensures Get(Flat(tags), k).Some? ==>
              i < |tags| && EntryOffer(tags[i], k) == Get(Flat(tags), k) &&
              forall j | 0 <= j < i :: EntryOffer(tags[j], k).None?
    decreases |tags|
  {
    i := 0;
    if tags != [] {
      hide Flat, Get, EntryOffer;
      var n := |tags| - 1;
      i := FlatAt(tags[..n], k);
      FlatSnoc(tags, k);
      if Get(Flat(tags[..n]), k).None? { i := n; }
    }
  }

  lemma EntryOffers(tags: StatTags, list: TagMap, i: nat, k: string)
    requires Meets(tags, list) && i < |tags|
    ensures EntryOffer(tags[i], k) == Offer(list, tags[i].0, k)
  {
    GetAscending(tags, i);
    assert MeetsAt(Get(tags, tags[i].0), list, tags[i].0);
  }

  lemma FlatSupplied(tags: StatTags, list: TagMap, k: string)
    requires Meets(tags, list)
    ensures Supplied(list, k, Get(Flat(tags), k))
  {
    var i := FlatAt(tags, k);
    forall f | Offer(list, f, k).Some?
      ensures Get(Flat(tags), k).Some? && (tags[i].0 == f || Less(tags[i].0, f))
    {
      assert MeetsAt(Get(tags, f), list, f);
      GetHasKey(tags, f);
      var j :| 0 <= j < |tags| && tags[j].0 == f;
      EntryOffers(tags, list, j, k);
    }
    if Get(Flat(tags), k).Some? { EntryOffers(tags, list, i, k); }
  }

  /** Only one multimap meets a list of tags. */
  lemma MeetsUnique(a: StatTags, b: StatTags, list: TagMap)
    requires Meets(a, list) && Meets(b, list)
    ensures a == b
  {
    forall k ensures Get(a, k) == Get(b, k) {
      assert MeetsAt(Get(a, k), list, k) && MeetsAt(Get(b, k), list, k);
      if Get(a, k).Some? { SameLookups(Get(a, k).value.second, Get(b, k).value.second); }
    }
    SameLookups(a, b);
  }

  /**
   What a record holds. Its tags are the only multimap with unique first-level names where both
   levels have the values of the outermost tag that sets them. The node's own attributes win over
   tags, and among tags the first in the order of first-level names wins.
   */
  lemma RecordMeaning(top: TagMap, nodes: seq<StatNode>)
    requires nodes != [] && Ascending(nodes[|nodes| - 1].attribs)
    ensures var r, own, list := Emit(top, nodes), nodes[|nodes| - 1].attribs, AllTags(top, nodes);
            && r.name == Path(nodes)
            && (forall tags :: Meets(tags, list) <==> tags == r.tags)
            && Ascending(r.attribs)
            && forall k ::
                 if Get(own, k).Some? then Get(r.attribs, k) == Get(own, k) else Supplied(list, k, Get(r.attribs, k))
  {
    hide Meets, Supplied, Flat, InsertAll, FillAll;
    var r, own, list := Emit(top, nodes), nodes[|nodes| - 1].attribs, AllTags(top, nodes);
    EmptyMeets();
    FillAllMeets([], [], list);
    assert [] + list == list;
    forall tags | Meets(tags, list) ensures tags == r.tags { MeetsUnique(tags, r.tags, list); }
    InsertAllAscending(own, Flat(r.tags));
    forall k ensures
      if Get(own, k).Some? then Get(r.attribs, k) == Get(own, k) else Supplied(list, k, Get(r.attribs, k))
    {
      GetInsertAll(own, Flat(r.tags), k);
      FlatSupplied(r.tags, list, k);
    }
  }

  lemma EmptyMeets()
    ensures Meets([], [])
  {
  }

  /** One tag alone: without a prefix it stands for itself, with one it goes under the prefix if it has a value. */
  lemma OneTag(key: string, tv: TagVal)
    ensures tv.prefix == Invalid ==> FillAll([], [(key, tv)]) == [(key, Tag(tv.val, []))]
    ensures tv.prefix != Invalid && tv.val != Invalid ==>
              FillAll([], [(key, tv)]) == [(tv.prefixName, Tag(tv.prefix, [(key, tv.val)]))]
    ensures tv.prefix != Invalid && tv.val == Invalid ==>
              FillAll([], [(key, tv)]) == [(tv.prefixName, Tag(tv.prefix, []))]
  {
    var list := [(key, tv)];
    assert list[1..] == [] && FillAll([], list) == Filled([], key, tv);
  }

  lemma {:induction false} LevelsAppended(a: TagMap, b: TagMap, k: string, s: string)
    ensures FirstLevel(a + b, k) == if FirstLevel(a, k).Some? then FirstLevel(a, k) else FirstLevel(b, k)
    ensures SecondLevel(a + b, k, s) ==
            if SecondLevel(a, k, s).Some? then SecondLevel(a, k, s) else SecondLevel(b, k, s)
    decreases |a|
  {
    if a == [] {
      assert a + b == b;
    } else {
      assert (a + b)[1..] == a[1..] + b;
      LevelsAppended(a[1..], b, k, s);
    }
  }

  /** The value that comes first: from the top tags, or else from the outermost node that has one. */
  ghost predicate Outermost(found: Option<Var>, top: Option<Var>, nodes: seq<Option<Var>>) {
    if top.Some? then found == top
    else if exists i :: 0 <= i < |nodes| && nodes[i].Some? then
      exists i :: 0 <= i < |nodes| && nodes[i].Some? && found == nodes[i] && forall j | 0 <= j < i :: nodes[j].None?
    else found.None?
  }

  /** What each node's own tags say of a first-level name, and of a second-level name under it. */
  function FirstOf(nodes: seq<StatNode>, k: string): seq<Option<Var>> {
    seq(|nodes|, i requires 0 <= i < |nodes| => FirstLevel(nodes[i].tags, k))
  }

  function SecondOf(nodes: seq<StatNode>, k: string, s: string): seq<Option<Var>> {
    seq(|nodes|, i requires 0 <= i < |nodes| => SecondLevel(nodes[i].tags, k, s))
  }

  lemma OutermostMore(found: Option<Var>, nodes: seq<Option<Var>>, last: Option<Var>)
    requires Outermost(found, None, nodes)
    ensures Outermost(if found.Some? then found else last, None, nodes + [last])
  {
    var more := nodes + [last];
    assert forall i | 0 <= i < |nodes| :: more[i] == nodes[i];
    assert more[|nodes|] == last;
  }

  lemma {:induction false} NodeLevels(nodes: seq<StatNode>, k: string, s: string)
    ensures Outermost(FirstLevel(NodeTags(nodes), k), None, FirstOf(nodes, k))
    ensures Outermost(SecondLevel(NodeTags(nodes), k, s), None, SecondOf(nodes, k, s))
    decreases |nodes|
  {
    if nodes != [] {
      hide Outermost, FirstLevel, SecondLevel, FirstOf, SecondOf;
      var n := |nodes| - 1;
      NodeLevels(nodes[..n], k, s);
      LevelsAppended(NodeTags(nodes[..n]), nodes[n].tags, k, s);
      OutermostMore(FirstLevel(NodeTags(nodes[..n]), k), FirstOf(nodes[..n], k), FirstLevel(nodes[n].tags, k));
      OutermostMore(SecondLevel(NodeTags(nodes[..n]), k, s), SecondOf(nodes[..n], k, s),
                    SecondLevel(nodes[n].tags, k, s));
      LevelsOfSnoc(nodes[..n], nodes[n], k, s);
      assert nodes[..n] + [nodes[n]] == nodes;
    }
  }

  lemma LevelsOfSnoc(nodes: seq<StatNode>, last: StatNode, k: string, s: string)
    ensures FirstOf(nodes + [last], k) == FirstOf(nodes, k) + [FirstLevel(last.tags, k)]
    ensures SecondOf(nodes + [last], k, s) == SecondOf(nodes, k, s) + [SecondLevel(last.tags, k, s)]
  {
  }

  /** Where the tags of a record come from, name by name: the top tags, then the nodes from the root down. */
  lemma RecordTags(top: TagMap, nodes: seq<StatNode>, k: string, s: string)
    requires nodes != []
    ensures var found := Get(Emit(top, nodes).tags, k);
            && Outermost(if found.Some? then Some(found.value.value) else None, FirstLevel(top, k), FirstOf(nodes, k))
            && Outermost(if found.Some? then Get(found.value.second, s) else None,
                         SecondLevel(top, k, s), SecondOf(nodes, k, s))
  {
    var list := AllTags(top, nodes);
    EmptyMeets();
    FillAllMeets([], [], list);
    assert [] + list == list;
    assert MeetsAt(Get(Emit(top, nodes).tags, k), list, k);
    if FirstLevel(list, k).None? { SecondNeedsFirst(list, k); }
    LevelsAppended(top, NodeTags(nodes), k, s);
    NodeLevels(nodes, k, s);
  }

  // ---- the walker

  predicate NoDots<V>(m: Entries<V>) {
    forall i | 0 <= i < |m| :: '.' !in m[i].0
  }

  class StatWalker {
    const topTags: TagMap
    var nodes: seq<StatNode>
    /** The records handed to the stat table so far. */
    var emitted: seq<Record>

    constructor (topTags: TagMap)
      ensures this.topTags == topTags && nodes == [] && emitted == []
    {
      this.topTags := topTags;
      nodes := [];
      emitted := [];
    }

    method PathName() returns (pre: string)
      ensures pre == Path(nodes)
    {
      pre := "";
      for i := 0 to |nodes|
        invariant pre == Path(nodes[..i])
      {
        if pre != "" { pre := pre + "."; }
        pre := pre + nodes[i].name;
        assert nodes[..i + 1][..i] == nodes[..i];
      }
      assert nodes[..|nodes|] == nodes;
    }

    /** `Push`; the source asserts that local names hold no dot. */
    method Push(name: string, tags: TagMap, attribs: AttribMap)
      requires Ascending(tags) && Ascending(attribs) && NoDots(tags) && NoDots(attribs)
      modifies this`nodes
      ensures nodes == old(nodes) + [NodeAt(old(nodes), name, tags, attribs)]
    {
      var pre := PathName();
      if pre != "" { pre := pre + "."; }
      pre := pre + name;
      assert pre == Append(Path(nodes), name);
      var qtags := QualifyAll(pre, tags);
      var qattribs := QualifyAll(pre, attribs);
      nodes := nodes + [StatNode(name, qtags, qattribs)];
    }

    static method QualifyAll<V>(pre: string, m: Entries<V>) returns (q: Entries<V>)
      requires Ascending(m)
      ensures q == Qualified(pre, m)
    {
      q := [];
      ghost var all := Qualified(pre, m);
      QualifiedAscending(pre, m);
      for i := 0 to |m|
        invariant q == all[..i]
      {
        assert all[i] == (pre + "." + m[i].0, m[i].1);
        InsertLast(q, all[i].0, all[i].1);
        q := Insert(q, pre + "." + m[i].0, m[i].1);
      }
    }

    /** `Pop`; the source asserts that there is a node to pop. */
    method Pop()
      requires nodes != []
      modifies this
      ensures nodes == old(nodes)[..|old(nodes)| - 1]
      ensures emitted == old(emitted) + [Emit(topTags, old(nodes))]
    {
      hide FillAll, Path, InsertAll, Flat;
      var stack := nodes;
      var name := PathName();
      var tags := FillFrom([], topTags);
      assert topTags + NodeTags([]) == topTags;
      for i := 0 to |stack|
        invariant nodes == stack && emitted == old(emitted)
        invariant tags == FillAll([], topTags + NodeTags(stack[..i]))
      {
        ghost var before := topTags + NodeTags(stack[..i]);
        FillAllSplit([], before, stack[i].tags);
        assert stack[..i + 1][..i] == stack[..i];
        assert before + stack[i].tags == topTags + NodeTags(stack[..i + 1]);
        tags := FillFrom(tags, stack[i].tags);
      }
      assert stack[..|stack|] == stack;
      var attribs := FlatInto(stack[|stack| - 1].attribs, tags);
      emitted := emitted + [Record(name, tags, attribs)];
      nodes := nodes[..|nodes| - 1];
    }

    /** The final tags become attributes too; an attribute that exists is kept. */
    static method FlatInto(own: AttribMap, tags: StatTags) returns (attribs: AttribMap)
      ensures attribs == InsertAll(own, Flat(tags))
    {
      hide Insert, InsertAll;
      attribs := own;
      InsertNone(own);
      for i := 0 to |tags|
        invariant attribs == InsertAll(own, Flat(tags[..i]))
      {
        var entry := tags[i];
        InsertAllSplit(own, Flat(tags[..i]), [(entry.0, entry.1.value)] + entry.1.second);
        InsertAllSplit(attribs, [(entry.0, entry.1.value)], entry.1.second);
        assert tags[..i + 1][..i] == tags[..i];
        attribs := Insert(attribs, entry.0, entry.1.value);
        attribs := InsertAll(attribs, entry.1.second);
      }
      assert tags[..|tags|] == tags;
    }

    static method FillFrom(tags: StatTags, list: TagMap) returns (r: StatTags)
      ensures r == FillAll(tags, list)
    {
      r := tags;
      for i := 0 to |list|
        invariant FillAll(tags, list) == FillAll(r, list[i..])
      {
        r := Filled(r, list[i].0, list[i].1);
      }
    }
  }

  lemma InsertNone(m: AttribMap)
    ensures InsertAll(m, []) == m
  {
  }

  lemma {:induction false} FillAllSplit(tags: StatTags, a: TagMap, b: TagMap)
    ensures FillAll(tags, a + b) == FillAll(FillAll(tags, a), b)
    decreases |a|
  {
    hide Filled;
    if a == [] {
      assert a + b == b;
    } else {
      assert (a + b)[1..] == a[1..] + b;
      FillAllSplit(Filled(tags, a[0].0, a[0].1), a[1..], b);
    }
  }

  lemma {:induction false} InsertAllSplit<V>(m: Entries<V>, a: Entries<V>, b: Entries<V>)
    ensures InsertAll(m, a + b) == InsertAll(InsertAll(m, a), b)
    ensures |a| == 1 ==> InsertAll(m, a) == Insert(m, a[0].0, a[0].1)
    decreases |a|
  {
    hide Insert;
    if a == [] {
      assert a + b == b;
    } else {
      assert (a + b)[1..] == a[1..] + b;
      InsertAllSplit(Insert(m, a[0].0, a[0].1), a[1..], b);
    }
  }

  function NodeAt(nodes: seq<StatNode>, name: string, tags: TagMap, attribs: AttribMap): StatNode {
    var pre := Append(Path(nodes), name);
    StatNode(name, Qualified(pre, tags), Qualified(pre, attribs))
  }

  /** A pushed node keeps its name, and its tags and attributes stand under its own path. */
  lemma NodeNames(nodes: seq<StatNode>, name: string, tags: TagMap, attribs: AttribMap, i: nat)
    ensures var n := NodeAt(nodes, name, tags, attribs);
            && n.name == name && |n.tags| == |tags| && |n.attribs| == |attribs|
            && (i < |tags| ==> n.tags[i] == (Path(nodes + [n]) + "." + tags[i].0, tags[i].1))
            && (i < |attribs| ==> n.attribs[i] == (Path(nodes + [n]) + "." + attribs[i].0, attribs[i].1))
  {
    var n := NodeAt(nodes, name, tags, attribs);
    assert (nodes + [n])[..|nodes|] == nodes;
  }

  // ---- walks over trees

  /**
   The statistics found under a structure: its own tags and attributes and the nested ones. An
   element whose tags annotation cannot be resolved is skipped with all that is under it.
   */
  datatype Tree = Node(name: string, tags: TagMap, attribs: AttribMap, children: seq<Tree>) | BadTags

  ghost predicate WellNamed(tree: Tree) {
    tree.Node? ==>
      && Ascending(tree.tags) && Ascending(tree.attribs) && NoDots(tree.tags) && NoDots(tree.attribs)
      && forall c | c in tree.children :: WellNamed(c)
  }

  /** The records of a tree below `nodes`, children before their parent. */
  function PostOrder(top: TagMap, nodes: seq<StatNode>, tree: Tree): seq<Record>
    decreases tree, 1
  {
    match tree
    case Node(name, tags, attribs, children) =>
      var path := nodes + [NodeAt(nodes, name, tags, attribs)];
      PostOrders(top, path, children) + [Emit(top, path)]
    case BadTags => []
  }

  function PostOrders(top: TagMap, nodes: seq<StatNode>, trees: seq<Tree>): seq<Record>
    decreases trees, 0
  {
    if trees == [] then [] else PostOrder(top, nodes, trees[0]) + PostOrders(top, nodes, trees[1..])
  }

  /** `DomStatWalker`: emits exactly the tree's records and leaves the stack as it found it. */
  method Walk(sw: StatWalker, tree: Tree) returns (ok: bool)
    requires WellNamed(tree)
    modifies sw
    ensures ok <==> tree.Node?
    ensures sw.nodes == old(sw.nodes)
    ensures sw.emitted == old(sw.emitted) + PostOrder(sw.topTags, old(sw.nodes), tree)
    decreases tree
  {
    hide Emit, NodeAt;
    match tree
    case BadTags => return false;
    case Node(name, tags, attribs, children) =>
      sw.Push(name, tags, attribs);
      ghost var path, before := sw.nodes, sw.emitted;
      for i := 0 to |children|
        invariant sw.nodes == path
        invariant sw.emitted + PostOrders(sw.topTags, path, children[i..]) ==
                  before + PostOrders(sw.topTags, path, children)
      {
        assert children[i] in children;
        ghost var rest := PostOrders(sw.topTags, path, children[i + 1..]);
        var good := Walk(sw, children[i]);
        assert children[i..][0] == children[i] && children[i..][1..] == children[i + 1..];
      }
      assert sw.emitted + [] == sw.emitted;
      sw.Pop();
      return true;
  }

  /** One record per node of the tree. */
  function Size(tree: Tree): nat
    decreases tree, 1
  {
    match tree
    case Node(_, _, _, children) => 1 + Sizes(children)
    case BadTags => 0
  }

  function Sizes(trees: seq<Tree>): nat
    decreases trees, 0
  {
    if trees == [] then 0 else Size(trees[0]) + Sizes(trees[1..])
  }

  lemma {:induction false} RecordCount(top: TagMap, nodes: seq<StatNode>, trees: seq<Tree>)
    ensures |PostOrders(top, nodes, trees)| == Sizes(trees)
    decreases trees
  {
    hide Emit, NodeAt;
    if trees != [] {
      match trees[0] {
        case Node(name, tags, attribs, children) =>
          RecordCount(top, nodes + [NodeAt(nodes, name, tags, attribs)], children);
        case BadTags =>
      }
      RecordCount(top, nodes, trees[1..]);
    }
  }

  // ---- well-nested sequences of calls

  datatype Call = PushCall(name: string, tags: TagMap, attribs: AttribMap) | PopCall

  /** The calls that walk a forest of nodes. */
  function Calls(trees: seq<Tree>): seq<Call> {
    if trees == [] then []
    else match trees[0]
      case Node(name, tags, attribs, children) =>
        [PushCall(name, tags, attribs)] + Calls(children) + [PopCall] + Calls(trees[1..])
      case BadTags => Calls(trees[1..])
  }

  /** Runs calls on a stack; `None` when a pop finds the stack empty. */
  function Execute(top: TagMap, nodes: seq<StatNode>, calls: seq<Call>): Option<(seq<StatNode>, seq<Record>)>
    decreases |calls|
  {
    if calls == [] then Some((nodes, []))
    else match calls[0]
      case PushCall(name, tags, attribs) => Execute(top, nodes + [NodeAt(nodes, name, tags, attribs)], calls[1..])
      case PopCall =>
        if nodes == [] then None
        else match Execute(top, nodes[..|nodes| - 1], calls[1..])
          case None => None
          case Some((end, records)) => Some((end, [Emit(top, nodes)] + records))
  }

  function After(records: seq<Record>, rest: Option<(seq<StatNode>, seq<Record>)>)
    : Option<(seq<StatNode>, seq<Record>)>
  {
    match rest
    case None => None
    case Some((end, more)) => Some((end, records + more))
  }

  lemma {:induction false} ExecuteForest(top: TagMap, nodes: seq<StatNode>, trees: seq<Tree>, rest: seq<Call>)
    ensures Execute(top, nodes, Calls(trees) + rest) == After(PostOrders(top, nodes, trees), Execute(top, nodes, rest))
    decreases trees
  {
    hide Emit, NodeAt, Execute;
    if trees == [] {
      assert Calls(trees) + rest == rest;
      AfterNone(Execute(top, nodes, rest));
    } else {
      var tail := Calls(trees[1..]) + rest;
      ExecuteForest(top, nodes, trees[1..], rest);
      match trees[0] {
        case Node(name, tags, attribs, children) =>
          var path := nodes + [NodeAt(nodes, name, tags, attribs)];
          ExecuteForest(top, path, children, [PopCall] + tail);
          assert Calls(trees) + rest == [PushCall(name, tags, attribs)] + (Calls(children) + ([PopCall] + tail));
          ExecutePush(top, nodes, PushCall(name, tags, attribs), Calls(children) + ([PopCall] + tail));
          assert path[..|path| - 1] == nodes;
          ExecutePop(top, path, tail);
          AfterAfter(PostOrders(top, path, children), [Emit(top, path)], PostOrders(top, nodes, trees[1..]),
                     Execute(top, nodes, rest));
        case BadTags =>
          assert [] + PostOrders(top, nodes, trees[1..]) == PostOrders(top, nodes, trees[1..]);
      }
    }
  }

  lemma ExecutePush(top: TagMap, nodes: seq<StatNode>, c: Call, calls: seq<Call>)
    requires c.PushCall?
    ensures Execute(top, nodes, [c] + calls) == Execute(top, nodes + [NodeAt(nodes, c.name, c.tags, c.attribs)], calls)
  {
    hide NodeAt;
    assert ([c] + calls)[1..] == calls;
  }

  lemma ExecutePop(top: TagMap, nodes: seq<StatNode>, calls: seq<Call>)
    requires nodes != []
    ensures Execute(top, nodes, [PopCall] + calls) ==
            After([Emit(top, nodes)], Execute(top, nodes[..|nodes| - 1], calls))
  {
    hide Emit;
    assert ([PopCall] + calls)[1..] == calls;
  }

  lemma AfterNone(rest: Option<(seq<StatNode>, seq<Record>)>)
    ensures After([], rest) == rest
  {
    if rest.Some? { assert [] + rest.value.1 == rest.value.1; }
  }

  lemma AfterAfter(a: seq<Record>, b: seq<Record>, c: seq<Record>, rest: Option<(seq<StatNode>, seq<Record>)>)
    ensures After(a, After(b, After(c, rest))) == After(a + b + c, rest)
  {
    if rest.Some? { assert a + (b + (c + rest.value.1)) == a + b + c + rest.value.1; }
  }

  /** Every prefix has at least as many pushes as pops, and the whole has as many. */
  ghost predicate Balanced(calls: seq<Call>, depth: nat) {
    if calls == [] then depth == 0
    else if calls[0].PushCall? then Balanced(calls[1..], depth + 1)
    else depth > 0 && Balanced(calls[1..], depth - 1)
  }

  lemma Regroup(a: seq<Call>, b: seq<Call>, c: seq<Call>, d: seq<Call>, e: seq<Call>)
    ensures a + (b + (c + (d + e))) == (a + b + c + d) + e
  {
  }

  /** Reads a forest off the front, up to the pop that closes the level or the end. */
  lemma {:induction false} ReadForest(calls: seq<Call>, depth: nat) returns (trees: seq<Tree>, rest: seq<Call>)
    requires Balanced(calls, depth)
    ensures calls == Calls(trees) + rest && Balanced(rest, depth)
    ensures if depth == 0 then rest == [] else rest != [] && rest[0].PopCall?
    ensures forall t | t in trees :: t.Node?
    decreases |calls|
  {
    if calls == [] || calls[0].PopCall? {
      trees, rest := [], calls;
    } else {
      var children, inner := ReadForest(calls[1..], depth + 1);
      var others, last := ReadForest(inner[1..], depth);
      var t := Node(calls[0].name, calls[0].tags, calls[0].attribs, children);
      trees, rest := [t] + others, last;
      assert trees[1..] == others;
      assert inner == [PopCall] + (Calls(others) + last);
      Regroup([calls[0]], Calls(children), [PopCall], Calls(others), last);
    }
  }

  /**
   Every well-nested sequence of calls is the walk of some forest: it emits that forest's records
   in post-order, never pops an empty stack and leaves the stack as it was.
   */
  lemma WellNestedWalk(top: TagMap, nodes: seq<StatNode>, calls: seq<Call>)
    requires Balanced(calls, 0)
    ensures exists trees ::
              && calls == Calls(trees)
              && Execute(top, nodes, calls) == Some((nodes, PostOrders(top, nodes, trees)))
  {
    var trees, rest := ReadForest(calls, 0);
    ExecuteForest(top, nodes, trees, []);
    assert Calls(trees) + [] == calls;
    assert PostOrders(top, nodes, trees) + [] == PostOrders(top, nodes, trees);
  }
}
