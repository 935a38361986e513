/** How UVE keys are spread over Kafka topics, and how a key is taken apart when a UVE is deleted. */
module UvePartitions {
  import opened Words

  const MIN_TOTAL: nat := 15

  datatype PartType = Cnodes | Pnodes | Vms | Ifs | Other

  /** First partition and number of partitions of a class. */
  function PartitionRange(ptype: PartType, partitions: nat): (nat, nat) {
    if partitions < MIN_TOTAL then (0, partitions)
    else
      var pnodes := partitions / 15 + 1;
      var variable := (partitions - 1 - pnodes) / 3;
      match ptype
      case Cnodes => (0, 1)
      case Pnodes => (1, pnodes)
      case Vms => (1 + pnodes, variable)
      case Ifs => (1 + pnodes + variable, variable)
      case Other => (1 + pnodes + 2 * variable, partitions - (1 + pnodes + 2 * variable))
  }

  predicate InRange(ptype: PartType, partitions: nat, q: nat) {
    var (first, count) := PartitionRange(ptype, partitions);
    first <= q < first + count
  }

  /** With enough partitions every one of them belongs to exactly one class, and no class is empty. */
  lemma ClassesTile(partitions: nat, q: nat)
    requires partitions >= MIN_TOTAL
    ensures forall ptype :: PartitionRange(ptype, partitions).1 > 0
    ensures q < partitions <==> exists ptype :: InRange(ptype, partitions, q)
    ensures forall a, b :: InRange(a, partitions, q) && InRange(b, partitions, q) ==> a == b
  {
    var pnodes := partitions / 15 + 1;
    var variable := (partitions - 1 - pnodes) / 3;
    assert 3 * variable <= partitions - 1 - pnodes;
    if q < partitions {
      assert InRange(Cnodes, partitions, q) || InRange(Pnodes, partitions, q) || InRange(Vms, partitions, q) ||
             InRange(Ifs, partitions, q) || InRange(Other, partitions, q);
    }
  }

  /**
   How the classes lie: one partition, then one more than a fifteenth, then twice a third of what is left, and the
   rest; each class starts where the one before it ends. With few partitions every class has them all.
   */
  lemma ClassLayout(partitions: nat)
    ensures partitions < 15 ==> forall ptype :: PartitionRange(ptype, partitions) == (0, partitions)
    ensures partitions >= 15 ==>
              var (c, nc) := PartitionRange(Cnodes, partitions);
              var (p, np) := PartitionRange(Pnodes, partitions);
              var (v, nv) := PartitionRange(Vms, partitions);
              var (i, ni) := PartitionRange(Ifs, partitions);
              var (o, no) := PartitionRange(Other, partitions);
              && c == 0 && nc == 1 && p == 1 && v == p + np && i == v + nv && o == i + ni && o + no == partitions
              && 15 * (np - 1) <= partitions < 15 * np
              && nv == ni && 3 * nv <= partitions - 1 - np < 3 * nv + 3
  {
  }

  /** `djb_hash` on signed characters, in 32 bits. */
  function Djb(key: seq<int>): nat {
    if key == [] then 5381 else (33 * Djb(key[..|key| - 1]) + key[|key| - 1]) % TWO_32
  }

  function Power33(n: nat): nat {
    if n == 0 then 1 else 33 * Power33(n - 1)
  }

  /** The sum of the characters, each times 33 to the number of characters after it. */
  function Weighted(key: seq<int>): int {
    if key == [] then 0 else key[0] * Power33(|key| - 1) + Weighted(key[1..])
  }

  lemma {:induction false} WeightedSnoc(key: seq<int>, c: int)
    ensures Weighted(key + [c]) == 33 * Weighted(key) + c
    decreases |key|
  {
    if key == [] {
      assert key + [c] == [c] && [c][1..] == [];
    } else {
      assert (key + [c])[1..] == key[1..] + [c];
      WeightedSnoc(key[1..], c);
      Times33(key[0], Power33(|key| - 1));
    }
  }

  lemma Times33(a: int, b: int)
    ensures a * (33 * b) == 33 * (a * b)
  {
  }

  /** The hash in closed form: a polynomial in 33, in 32 bits. */
  lemma {:induction false} DjbIs(key: seq<int>)
    ensures Djb(key) == (5381 * Power33(|key|) + Weighted(key)) % 0x1_0000_0000
    decreases |key|
  {
    if key != [] {
      var n := |key| - 1;
      DjbIs(key[..n]);
      WeightedSnoc(key[..n], key[n]);
      assert key[..n] + [key[n]] == key;
      WrapStep(5381 * Power33(n) + Weighted(key[..n]), key[n]);
    }
  }

  lemma WrapStep(x: int, c: int)
    ensures (33 * (x % 0x1_0000_0000) + c) % 0x1_0000_0000 == (33 * x + c) % 0x1_0000_0000
  {
  }

  method DjbHash(key: seq<int>) returns (hash: nat)
    ensures hash == Djb(key) && hash < TWO_32
  {
    hash := 5381;
    for i := 0 to |key|
      invariant hash == Djb(key[..i]) && hash < TWO_32
    {
      assert key[..i + 1][..i] == key[..i];
      hash := (hash * 32 % TWO_32 + hash + key[i]) % TWO_32;
    }
    assert key[..|key|] == key;
  }

  /** A character as a signed byte. */
  function Codes(s: string): (codes: seq<int>)
    ensures |codes| == |s|
    ensures forall i | 0 <= i < |s| :: -128 <= codes[i] < 128 && (codes[i] - s[i] as int) % 0x100 == 0
  {
    seq(|s|, i requires 0 <= i < |s| => var c := s[i] as int % 0x100; if c < 0x80 then c else c - 0x100)
  }

  const CNODES_TABLES := ["ObjectCollectorInfo", "ObjectDatabaseInfo", "ObjectBgpRouter", "ObjectConfigNode",
                          "ObjectDns", "ObjectKubernetesManagerNode"]
  const PNODES_TABLES := ["ObjectServerTable", "ObjectPRouter", "ObjectVRouter"]
  const VMS_TABLES := ["ObjectVMTable"]
  const IFS_TABLES := ["ObjectVMITable", "ObjectPhysicalInterfaceTable", "ObjectLogicalInterfaceTable"]

  /** The class of a table; a table that is not listed is in the last class. */
  function TypeOf(table: string): PartType {
    if table in CNODES_TABLES then Cnodes
    else if table in PNODES_TABLES then Pnodes
    else if table in VMS_TABLES then Vms
    else if table in IFS_TABLES then Ifs
    else Other
  }

  /** The topic a key of a table goes to. */
  function Topic(table: string, barekey: string, partitions: nat): nat
    requires partitions > 0
  {
    ClassSize(TypeOf(table), partitions);
    var (first, count) := PartitionRange(TypeOf(table), partitions);
    first + Djb(Codes(table + ":" + barekey)) % count
  }

  lemma ClassSize(ptype: PartType, partitions: nat)
    requires partitions > 0
    ensures PartitionRange(ptype, partitions).1 > 0
    ensures PartitionRange(ptype, partitions).0 + PartitionRange(ptype, partitions).1 <= partitions
  {
    if partitions >= MIN_TOTAL { ClassesTile(partitions, 0); }
  }

  /** The classes of the tables that have one: control nodes, physical nodes, machines and interfaces. */
  lemma ControlTables()
    ensures TypeOf("ObjectCollectorInfo") == TypeOf("ObjectDatabaseInfo") == TypeOf("ObjectBgpRouter") == Cnodes
    ensures TypeOf("ObjectConfigNode") == TypeOf("ObjectDns") == TypeOf("ObjectKubernetesManagerNode") == Cnodes
  {
  }

  lemma PhysicalTables()
    ensures TypeOf("ObjectServerTable") == TypeOf("ObjectPRouter") == TypeOf("ObjectVRouter") == Pnodes
  {
  }

  lemma InstanceTables()
    ensures TypeOf("ObjectVMTable") == Vms
    ensures TypeOf("ObjectVMITable") == Ifs
    ensures TypeOf("ObjectPhysicalInterfaceTable") == TypeOf("ObjectLogicalInterfaceTable") == Ifs
  {
  }

  /** The topic of a key, from its table's class and the polynomial of "table:rest". */
  lemma TopicIs(table: string, barekey: string, partitions: nat)
    requires partitions > 0
    ensures var (first, count) := PartitionRange(TypeOf(table), partitions);
            var key := Codes(table + ":" + barekey);
            count > 0 && Topic(table, barekey, partitions) ==
                         first + (5381 * Power33(|key|) + Weighted(key)) % 0x1_0000_0000 % count
  {
    ClassSize(TypeOf(table), partitions);
    DjbIs(Codes(table + ":" + barekey));
  }

  /** Every topic chosen exists. */
  lemma TopicExists(table: string, barekey: string, partitions: nat)
    requires partitions > 0
    ensures Topic(table, barekey, partitions) < partitions
    ensures InRange(TypeOf(table), partitions, Topic(table, barekey, partitions))
  {
    ClassSize(TypeOf(table), partitions);
  }

  // ---- taking a key apart

  /** `boost::split` on colons. */
  function Split(s: string): (v: seq<string>)
    ensures |v| > 0
  {
    SplitFrom(s, "")
  }

  function SplitFrom(s: string, piece: string): (v: seq<string>)
    ensures |v| > 0
  {
    if s == "" then [piece]
    else if s[0] == ':' then [piece] + SplitFrom(s[1..], "")
    else SplitFrom(s[1..], piece + [s[0]])
  }

  function Joined(v: seq<string>): string
    requires |v| > 0
  {
    if |v| == 1 then v[0] else v[0] + ":" + Joined(v[1..])
  }

  lemma {:induction false} SplitJoined(s: string, piece: string)
    requires ':' !in piece
    ensures Joined(SplitFrom(s, piece)) == piece + s
    ensures ':' !in SplitFrom(s, piece)[0]
    ensures |SplitFrom(s, piece)| > 1 <==> ':' in s
    decreases |s|
  {
    if s != "" {
      var rest := s[1..];
      assert s == [s[0]] + rest;
      if s[0] == ':' {
        SplitJoined(rest, "");
        assert ([piece] + SplitFrom(rest, ""))[1..] == SplitFrom(rest, "");
        assert piece + ":" + ("" + rest) == piece + s;
      } else {
        SplitJoined(rest, piece + [s[0]]);
        assert (piece + [s[0]]) + rest == piece + s;
      }
    }
  }

  lemma {:induction false} JoinedSnoc(v: seq<string>, x: string)
    requires |v| > 0
    ensures Joined(v + [x]) == Joined(v) + ":" + x
  {
    if |v| == 1 {
      assert (v + [x])[1..] == [x];
    } else {
      assert (v + [x])[1..] == v[1..] + [x];
      JoinedSnoc(v[1..], x);
    }
  }

  /** The table and the rest of a stored key; the source takes the second piece without a check. */
  method TakeApart(uve: string) returns (table: string, barekey: string)
    requires ':' in uve
    ensures table + ":" + barekey == uve && ':' !in table
  {
    var v := Split(uve);
    SplitJoined(uve, "");
    table := v[0];
    barekey := v[1];
    for idx := 2 to |v|
      invariant barekey == Joined(v[1..idx])
    {
      JoinedSnoc(v[1..idx], v[idx]);
      assert v[1..idx] + [v[idx]] == v[1..idx + 1];
      barekey := barekey + ":";
      barekey := barekey + v[idx];
    }
    assert v[1..|v|] == v[1..];
  }

  /**
   A deleted UVE is announced under the key it was updated with; table, rest and topic are the
   same whenever the table name holds no colon, which is exactly when the table is recovered.
   */
  lemma DeleteMatchesUpdate(table: string, barekey: string, partitions: nat, t: string, b: string)
    requires partitions > 0
    requires t + ":" + b == table + ":" + barekey && ':' !in t
    ensures t == table && b == barekey <==> ':' !in table
    ensures ':' !in table ==> Topic(t, b, partitions) == Topic(table, barekey, partitions)
  {
    var key := table + ":" + barekey;
    if ':' !in table {
      assert key[|t|] == ':' && key[|table|] == ':';
      assert t == key[..|t|] && table == key[..|table|];
      assert b == key[|t| + 1..] && barekey == key[|table| + 1..];
    }
  }
}
