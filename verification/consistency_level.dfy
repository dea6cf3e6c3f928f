/** The cluster driver's consistency levels, in the order the driver's property
    descriptor lists them, and the enum's `name()` / `valueOf` pair. */
module ConsistencyLevels {
  import opened Wrappers

  datatype ConsistencyLevel =
    | All | EachQuorum | Quorum | LocalQuorum | One | Two | Three
    | LocalOne | Any | Serial | LocalSerial

  /** `ConsistencyLevel.name()`. */
  function Name(l: ConsistencyLevel): (r: string)
    ensures |r| > 0 && forall k :: 0 <= k < |r| ==> 'A' <= r[k] <= 'Z' || r[k] == '_'
  {
    match l
    case All => "ALL"
    case EachQuorum => "EACH_QUORUM"
    case Quorum => "QUORUM"
    case LocalQuorum => "LOCAL_QUORUM"
    case One => "ONE"
    case Two => "TWO"
    case Three => "THREE"
    case LocalOne => "LOCAL_ONE"
    case Any => "ANY"
    case Serial => "SERIAL"
    case LocalSerial => "LOCAL_SERIAL"
  }

  /** Every level once, in declaration order of the choices table. */
  const Declared: seq<ConsistencyLevel> :=
    [All, EachQuorum, Quorum, LocalQuorum, One, Two, Three, LocalOne, Any, Serial, LocalSerial]

  /** The first level in `levels` whose name is exactly `s`. */
  function FindByName(s: string, levels: seq<ConsistencyLevel>): (r: Option<ConsistencyLevel>)
  {
    if |levels| == 0 then None
    else if Name(levels[0]) == s then Some(levels[0])
    else FindByName(s, levels[1..])
  }

  /** `ConsistencyLevel.valueOf(s)`: an exact, case-sensitive name lookup;
      `None` where Java throws `IllegalArgumentException`. */
  function ValueOf(s: string): (r: Option<ConsistencyLevel>)
    ensures r.Some? ==> Name(r.value) == s
    ensures r.None? ==> forall l :: Name(l) != s
  {
    FindByNameSound(s, Declared);
    if FindByName(s, Declared).None? then NoLevelNamed(s); None
    else FindByName(s, Declared)
  }

  /** When no declared level has the name, no level has it. */
  lemma NoLevelNamed(s: string)
    requires forall i :: 0 <= i < |Declared| ==> Name(Declared[i]) != s
    ensures forall l :: Name(l) != s
  {
    forall l: ConsistencyLevel
      ensures Name(l) != s
    {
      var i := Ordinal(l);
    }
  }

  lemma {:induction false} FindByNameSound(s: string, levels: seq<ConsistencyLevel>)
    ensures FindByName(s, levels).Some? ==>
      FindByName(s, levels).value in levels && Name(FindByName(s, levels).value) == s
    ensures FindByName(s, levels).None? ==>
      forall i :: 0 <= i < |levels| ==> Name(levels[i]) != s
  {
    if |levels| > 0 && Name(levels[0]) != s {
      FindByNameSound(s, levels[1..]);
    }
  }

  lemma {:induction false} FindByNameAt(s: string, levels: seq<ConsistencyLevel>, i: nat)
    requires i < |levels| && Name(levels[i]) == s
    requires forall j :: 0 <= j < i ==> Name(levels[j]) != s
    ensures FindByName(s, levels) == Some(levels[i])
  {
    if i > 0 {
      FindByNameAt(s, levels[1..], i - 1);
    }
  }

  /** The position of each level in `Declared`. */
  function Ordinal(l: ConsistencyLevel): (i: nat)
    ensures i < |Declared| && Declared[i] == l
  {
    match l
    case All => 0
    case EachQuorum => 1
    case Quorum => 2
    case LocalQuorum => 3
    case One => 4
    case Two => 5
    case Three => 6
    case LocalOne => 7
    case Any => 8
    case Serial => 9
    case LocalSerial => 10
  }

  /** No two levels share a name. */
  lemma NamesDistinct(i: nat, j: nat)
    requires i < j < |Declared|
    ensures Name(Declared[i]) != Name(Declared[j])
  {
  }

  /** `valueOf` inverts `name()`. */
  lemma ValueOfName(l: ConsistencyLevel)
    ensures ValueOf(Name(l)) == Some(l)
  {
    var i := Ordinal(l);
    forall j | 0 <= j < i
      ensures Name(Declared[j]) != Name(l)
    {
      NamesDistinct(j, i);
    }
    FindByNameAt(Name(l), Declared, i);
  }

  /** `valueOf` accepts exactly the level names. */
  lemma ValueOfIff(s: string, l: ConsistencyLevel)
    ensures ValueOf(s) == Some(l) <==> s == Name(l)
  {
    FindByNameSound(s, Declared);
    if s == Name(l) {
      ValueOfName(l);
    }
  }
}
