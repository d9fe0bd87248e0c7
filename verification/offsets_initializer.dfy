/** The starting-offset strategies a Kafka source can be given, and the
    recognised names that select them. */
module OffsetsInitializer {
  import opened Wrappers
  import opened JavaTypes

  /** Kafka's `OffsetResetStrategy`: where to start when a committed offset is missing. */
  datatype ResetStrategy = LATEST | EARLIEST | NONE

  /** Flink's `OffsetsInitializer` values produced by the configuration reader. */
  datatype OffsetPolicy =
    | Earliest
    | Latest
    | Committed(reset: ResetStrategy)
    | Timestamp(ts: Long)

  /** A policy with its timestamp not yet supplied: what a policy name alone determines. */
  datatype PolicyKind =
    | EarliestKind
    | LatestKind
    | CommittedKind(reset: ResetStrategy)
    | TimestampKind

  /** The policy a kind denotes once the timestamp is known. */
  function Instantiate(k: PolicyKind, ts: Long): (p: OffsetPolicy)
    ensures KindOf(p) == k
    ensures p.Timestamp? ==> p.ts == ts
  {
    match k
    case EarliestKind => Earliest
    case LatestKind => Latest
    case CommittedKind(reset) => Committed(reset)
    case TimestampKind => Timestamp(ts)
  }

  function KindOf(p: OffsetPolicy): (k: PolicyKind) {
    match p
    case Earliest => EarliestKind
    case Latest => LatestKind
    case Committed(reset) => CommittedKind(reset)
    case Timestamp(_) => TimestampKind
  }

  /** The configuration name of each kind. */
  function NameOf(k: PolicyKind): (name: string) {
    match k
    case EarliestKind => "earliest"
    case LatestKind => "latest"
    case CommittedKind(LATEST) => "committedOffsetsLatest"
    case CommittedKind(EARLIEST) => "committedOffsetsEarliest"
    case CommittedKind(NONE) => "committedOffsetsNone"
    case TimestampKind => "timestamp"
  }

  /** The recognised-name table, in the order the reader tests the names. */
  const Table: seq<(string, PolicyKind)> := [
    ("earliest", EarliestKind),
    ("latest", LatestKind),
    ("committedOffsetsLatest", CommittedKind(LATEST)),
    ("committedOffsetsEarliest", CommittedKind(EARLIEST)),
    ("committedOffsetsNone", CommittedKind(NONE)),
    ("timestamp", TimestampKind)
  ]

  /** No name occurs twice in a table. */
  predicate KeysDistinct(table: seq<(string, PolicyKind)>) {
    forall i, j :: 0 <= i < j < |table| ==> table[i].0 != table[j].0
  }

  /** True of the names the reader recognises. */
  predicate IsRecognised(name: Option<string>) {
    name.Some? && exists i :: 0 <= i < |Table| && Table[i].0 == name.value
  }

  /** The kind of the first table entry whose name equals `name` exactly;
      `None` when no entry matches (a null name matches none). */
  function FirstMatch(table: seq<(string, PolicyKind)>, name: Option<string>): (r: Option<PolicyKind>)
    ensures r.None? <==> forall i :: 0 <= i < |table| ==> Some(table[i].0) != name
    ensures r.Some? ==> exists i :: 0 <= i < |table| && Some(table[i].0) == name && table[i].1 == r.value
  {
    if |table| == 0 then None
    else if Some(table[0].0) == name then Some(table[0].1)
    else
      var r := FirstMatch(table[1..], name);
      assert forall i :: 1 <= i < |table| ==> table[i] == table[1..][i - 1];
      r
  }

  /** The lookup returns the kind of the FIRST entry with the name: an entry
      that no earlier entry shadows is the one found. */
  lemma {:induction false} FirstMatchIsFirst(table: seq<(string, PolicyKind)>, name: Option<string>, i: nat)
    requires i < |table| && Some(table[i].0) == name
    requires forall j :: 0 <= j < i ==> Some(table[j].0) != name
    ensures FirstMatch(table, name) == Some(table[i].1)
  {
    if i > 0 {
      var rest := table[1..];
      assert Some(table[0].0) != name;
      assert rest[i - 1] == table[i];
      forall j | 0 <= j < i - 1
        ensures Some(rest[j].0) != name
      {
        assert rest[j] == table[j + 1];
      }
      FirstMatchIsFirst(rest, name, i - 1);
    }
  }

  /** In a table without repeated names the first match of an entry's name is that entry. */
  lemma FirstMatchOfDistinctKey(table: seq<(string, PolicyKind)>, i: nat)
    requires KeysDistinct(table)
    requires i < |table|
    ensures FirstMatch(table, Some(table[i].0)) == Some(table[i].1)
  {
  }

  /** The recognised-name table names every kind exactly once, under `NameOf`. */
  lemma TableIsWellFormed()
    ensures KeysDistinct(Table)
    ensures forall i :: 0 <= i < |Table| ==> Table[i].0 == NameOf(Table[i].1)
    ensures forall k: PolicyKind :: (NameOf(k), k) in Table
  {
  }

  /** Looking up a kind's configuration name finds that kind. */
  lemma NameRoundTrip(k: PolicyKind)
    ensures FirstMatch(Table, Some(NameOf(k))) == Some(k)
  {
  }

  /** A name is recognised exactly when the table lookup finds a kind for it. */
  lemma RecognisedIffMatched(name: Option<string>)
    ensures IsRecognised(name) <==> FirstMatch(Table, name).Some?
  {
  }
}
