/** The package-level identifiers of one generated file, handed out as families of derived names. */
module Names {
  import opened Common
  import opened DecimalText

  /** The identifiers derived from a name. */
  type Family = string -> seq<string>

  datatype NameKey = NameKey(node: nat, role: string)

  // ---- The families

  function RootFamily(name: string): seq<string> {
    [name, name + "FieldOrder", name + "ModuleNS", name + "ModuleName"]
  }

  function StructFamily(name: string): seq<string> { [name, name + "FieldOrder"] }

  function OperationFamily(name: string): seq<string> { [name, name + "FieldOrder", "From" + name + "JSONIETF"] }

  function RestrictedScalarFamily(name: string): seq<string> { [name, "New" + name, "Default" + name] }

  function BitsFamily(name: string): seq<string> { [name, name + "BitPositions", "New" + name] }

  /** Enumerations and identityrefs: the type, its parser, and one constant per variant. */
  function VariantsFamily(variants: seq<string>, name: string): seq<string> {
    [name, "Parse" + name] + seq(|variants|, i requires 0 <= i < |variants| => name + variants[i])
  }

  /** A member of a union as far as names go. */
  datatype Member =
    | PlainMember
    | RangedInt
    | LimitedString
    | Variants(variants: seq<string>)
    | BitSet
    | NestedUnion(members: seq<UnionMember>)

  /** A union member and what the name of its variant type adds to that of the union. */
  datatype UnionMember = UnionMember(variant: string, member: Member)

  function UnionFamily(members: seq<UnionMember>, name: string): seq<string>
    decreases members, 1
  {
    if members == [] then [name, name + "String"] else [name] + MembersFamily(members, name)
  }

  function MembersFamily(members: seq<UnionMember>, name: string): seq<string>
    decreases members, 0
  {
    if members == [] then []
    else
      [name + members[0].variant] + PayloadFamily(members[0].member, name + members[0].variant)
      + MembersFamily(members[1..], name)
  }

  /** The helper types of one union member; variant is the name of its variant type. */
  function PayloadFamily(member: Member, variant: string): seq<string>
    decreases member
  {
    match member
    case PlainMember => []
    case RangedInt => RestrictedScalarFamily(variant + "Range")
    case LimitedString => RestrictedScalarFamily(variant + "Length")
    case Variants(variants) => VariantsFamily(variants, variant + "Enum")
    case BitSet => BitsFamily(variant + "Bits")
    case NestedUnion(members) => UnionFamily(members, variant + "Union")
  }

  // ---- Families are injective in the name

  /** The i-th identifier of a family determines the name, and every name has as many identifiers. */
  ghost predicate Injective(family: Family) {
    forall a, b :: |family(a)| == |family(b)| > 0
        && forall i :: 0 <= i < |family(a)| && family(a)[i] == family(b)[i] ==> a == b
  }

  /** What a derived identifier puts around the name. */
  datatype Affix = Affix(prefix: string, suffix: string)

  ghost predicate IsAffixed(members: seq<string>, affixes: seq<Affix>, name: string) {
    |members| == |affixes| && forall i :: 0 <= i < |affixes| ==>
      members[i] == affixes[i].prefix + name + affixes[i].suffix
  }

  lemma AffixInjective(affix: Affix, a: string, b: string)
    requires affix.prefix + a + affix.suffix == affix.prefix + b + affix.suffix
    ensures a == b
  {
    var x, y := affix.prefix + a + affix.suffix, affix.prefix + b + affix.suffix;
    var p := |affix.prefix|;
    assert |a| == |b|;
    assert a == x[p..p + |a|] && b == y[p..p + |b|];
  }

  lemma AffixedInjective(family: Family, affixes: seq<Affix>)
    requires affixes != [] && forall name :: IsAffixed(family(name), affixes, name)
    ensures Injective(family)
  {
    forall a, b
      ensures |family(a)| == |family(b)| > 0
              && forall i :: 0 <= i < |family(a)| && family(a)[i] == family(b)[i] ==> a == b
    {
      assert IsAffixed(family(a), affixes, a) && IsAffixed(family(b), affixes, b);
      forall i | 0 <= i < |family(a)| && family(a)[i] == family(b)[i]
        ensures a == b
      {
        AffixInjective(affixes[i], a, b);
      }
    }
  }

  lemma AffixedJoin(a: seq<string>, b: seq<string>, x: seq<Affix>, y: seq<Affix>, name: string)
    requires IsAffixed(a, x, name) && IsAffixed(b, y, name)
    ensures IsAffixed(a + b, x + y, name)
  {
  }

  function Shifted(affixes: seq<Affix>, suffix: string): (r: seq<Affix>)
    ensures |r| == |affixes| && forall i :: 0 <= i < |affixes| ==>
            r[i] == Affix(affixes[i].prefix, suffix + affixes[i].suffix)
  {
    seq(|affixes|, i requires 0 <= i < |affixes| => Affix(affixes[i].prefix, suffix + affixes[i].suffix))
  }

  lemma AffixedShift(members: seq<string>, affixes: seq<Affix>, name: string, suffix: string)
    requires IsAffixed(members, affixes, name + suffix)
    ensures IsAffixed(members, Shifted(affixes, suffix), name)
  {
    forall i | 0 <= i < |affixes|
      ensures members[i] == affixes[i].prefix + name + (suffix + affixes[i].suffix)
    {
      assert affixes[i].prefix + (name + suffix) + affixes[i].suffix ==
             affixes[i].prefix + name + (suffix + affixes[i].suffix);
    }
  }

  function VariantAffixes(variants: seq<string>): (r: seq<Affix>) {
    [Affix("", ""), Affix("Parse", "")] + seq(|variants|, i requires 0 <= i < |variants| => Affix("", variants[i]))
  }

  const SCALAR_AFFIXES: seq<Affix> := [Affix("", ""), Affix("New", ""), Affix("Default", "")]
  const BITS_AFFIXES: seq<Affix> := [Affix("", ""), Affix("", "BitPositions"), Affix("New", "")]

  function UnionAffixes(members: seq<UnionMember>): seq<Affix>
    decreases members, 1
  {
    if members == [] then [Affix("", ""), Affix("", "String")] else [Affix("", "")] + MembersAffixes(members)
  }

  function MembersAffixes(members: seq<UnionMember>): seq<Affix>
    decreases members, 0
  {
    if members == [] then []
    else
      [Affix("", members[0].variant)] + Shifted(PayloadAffixes(members[0].member), members[0].variant)
      + MembersAffixes(members[1..])
  }

  function PayloadAffixes(member: Member): seq<Affix>
    decreases member
  {
    match member
    case PlainMember => []
    case RangedInt => Shifted(SCALAR_AFFIXES, "Range")
    case LimitedString => Shifted(SCALAR_AFFIXES, "Length")
    case Variants(variants) => Shifted(VariantAffixes(variants), "Enum")
    case BitSet => Shifted(BITS_AFFIXES, "Bits")
    case NestedUnion(members) => Shifted(UnionAffixes(members), "Union")
  }

  lemma ScalarAffixed(name: string)
    ensures IsAffixed(RestrictedScalarFamily(name), SCALAR_AFFIXES, name)
    ensures IsAffixed(BitsFamily(name), BITS_AFFIXES, name)
  {
    assert "" + name + "" == name;
    assert "New" + name + "" == "New" + name && "Default" + name + "" == "Default" + name;
    assert "" + name + "BitPositions" == name + "BitPositions";
  }

  lemma VariantsAffixed(variants: seq<string>, name: string)
    ensures IsAffixed(VariantsFamily(variants, name), VariantAffixes(variants), name)
  {
    var constants := seq(|variants|, i requires 0 <= i < |variants| => name + variants[i]);
    var affixes := seq(|variants|, i requires 0 <= i < |variants| => Affix("", variants[i]));
    forall i | 0 <= i < |variants|
      ensures constants[i] == affixes[i].prefix + name + affixes[i].suffix
    {
      assert "" + name + variants[i] == name + variants[i];
    }
    assert "" + name + "" == name && "Parse" + name + "" == "Parse" + name;
    AffixedJoin([name, "Parse" + name], constants, [Affix("", ""), Affix("Parse", "")], affixes, name);
  }

  lemma {:induction false} UnionAffixed(members: seq<UnionMember>, name: string)
    ensures IsAffixed(UnionFamily(members, name), UnionAffixes(members), name)
    decreases members, 1
  {
    hide MembersFamily, MembersAffixes;
    assert "" + name + "" == name && "" + name + "String" == name + "String";
    if members != [] {
      MembersAffixed(members, name);
      AffixedJoin([name], MembersFamily(members, name), [Affix("", "")], MembersAffixes(members), name);
    }
  }

  lemma {:induction false} MembersAffixed(members: seq<UnionMember>, name: string)
    ensures IsAffixed(MembersFamily(members, name), MembersAffixes(members), name)
    decreases members, 0
  {
    hide PayloadFamily, PayloadAffixes, IsAffixed;
    if members == [] {
      NothingAffixed(name);
    } else {
      var variant, member := members[0].variant, members[0].member;
      OneAffixed(name, variant);
      PayloadAffixed(member, name + variant);
      AffixedShift(PayloadFamily(member, name + variant), PayloadAffixes(member), name, variant);
      AffixedJoin([name + variant], PayloadFamily(member, name + variant), [Affix("", variant)],
                  Shifted(PayloadAffixes(member), variant), name);
      MembersAffixed(members[1..], name);
      AffixedJoin([name + variant] + PayloadFamily(member, name + variant), MembersFamily(members[1..], name),
                  [Affix("", variant)] + Shifted(PayloadAffixes(member), variant), MembersAffixes(members[1..]), name);
    }
  }

  lemma NothingAffixed(name: string)
    ensures IsAffixed([], [], name)
  {
  }

  lemma OneAffixed(name: string, variant: string)
    ensures IsAffixed([name + variant], [Affix("", variant)], name)
  {
    assert "" + name + variant == name + variant;
  }

  lemma {:induction false} PayloadAffixed(member: Member, variant: string)
    ensures IsAffixed(PayloadFamily(member, variant), PayloadAffixes(member), variant)
    decreases member
  {
    hide IsAffixed, Shifted, UnionFamily, UnionAffixes, VariantsFamily, VariantAffixes, RestrictedScalarFamily,
         BitsFamily;
    match member
    case PlainMember => NothingAffixed(variant);
    case RangedInt =>
      ScalarAffixed(variant + "Range");
      AffixedShift(RestrictedScalarFamily(variant + "Range"), SCALAR_AFFIXES, variant, "Range");
    case LimitedString =>
      ScalarAffixed(variant + "Length");
      AffixedShift(RestrictedScalarFamily(variant + "Length"), SCALAR_AFFIXES, variant, "Length");
    case Variants(variants) =>
      VariantsAffixed(variants, variant + "Enum");
      AffixedShift(VariantsFamily(variants, variant + "Enum"), VariantAffixes(variants), variant, "Enum");
    case BitSet =>
      ScalarAffixed(variant + "Bits");
      AffixedShift(BitsFamily(variant + "Bits"), BITS_AFFIXES, variant, "Bits");
    case NestedUnion(members) =>
      UnionAffixed(members, variant + "Union");
      AffixedShift(UnionFamily(members, variant + "Union"), UnionAffixes(members), variant, "Union");
  }

  /** A union's family is injective, however deeply unions nest. */
  lemma UnionFamilyInjective(members: seq<UnionMember>)
    ensures Injective(name => UnionFamily(members, name))
  {
    hide UnionFamily, IsAffixed;
    forall name
      ensures IsAffixed(UnionFamily(members, name), UnionAffixes(members), name)
    {
      UnionAffixed(members, name);
    }
    AffixedInjective(name => UnionFamily(members, name), UnionAffixes(members));
  }

  lemma VariantsFamilyInjective(variants: seq<string>)
    ensures Injective(name => VariantsFamily(variants, name))
  {
    hide VariantsFamily, IsAffixed;
    forall name
      ensures IsAffixed(VariantsFamily(variants, name), VariantAffixes(variants), name)
    {
      VariantsAffixed(variants, name);
    }
    AffixedInjective(name => VariantsFamily(variants, name), VariantAffixes(variants));
  }

  lemma FixedFamiliesInjective()
    ensures Injective(RootFamily) && Injective(StructFamily) && Injective(OperationFamily)
    ensures Injective(RestrictedScalarFamily) && Injective(BitsFamily)
  {
    var self, order := Affix("", ""), Affix("", "FieldOrder");
    forall name
      ensures IsAffixed(RootFamily(name), [self, order, Affix("", "ModuleNS"), Affix("", "ModuleName")], name)
      ensures IsAffixed(StructFamily(name), [self, order], name)
      ensures IsAffixed(OperationFamily(name), [self, order, Affix("From", "JSONIETF")], name)
      ensures IsAffixed(RestrictedScalarFamily(name), SCALAR_AFFIXES, name)
              && IsAffixed(BitsFamily(name), BITS_AFFIXES, name)
    {
      ScalarAffixed(name);
      assert "" + name + "" == name && "" + name + "FieldOrder" == name + "FieldOrder";
      assert "" + name + "ModuleNS" == name + "ModuleNS" && "" + name + "ModuleName" == name + "ModuleName";
    }
    AffixedInjective(RootFamily, [self, order, Affix("", "ModuleNS"), Affix("", "ModuleName")]);
    AffixedInjective(StructFamily, [self, order]);
    AffixedInjective(OperationFamily, [self, order, Affix("From", "JSONIETF")]);
    AffixedInjective(RestrictedScalarFamily, SCALAR_AFFIXES);
    AffixedInjective(BitsFamily, BITS_AFFIXES);
  }

  // ---- Allocation

  datatype Request = Request(key: NameKey, base: string, family: Family)

  /** The identifiers taken, the name of each key, and the identifiers reserved for it. */
  datatype Allocations = Allocations(used: set<string>, names: map<NameKey, string>,
                                     families: map<NameKey, set<string>>)

  function Elements(members: seq<string>): set<string> { set m | m in members }

  /** The k-th candidate: the base itself, then the base with 2, 3, ... appended. */
  function Candidate(base: string, k: nat): string { if k < 2 then base else base + Numeral(k) }

  ghost predicate Free(used: set<string>, family: Family, name: string) { Elements(family(name)) !! used }

  /** One call: a known key keeps its name, a new one gets the first candidate whose whole family is free. */
  ghost predicate Step(before: Allocations, request: Request, after: Allocations, name: string) {
    if request.key in before.names then after == before && name == before.names[request.key]
    else
      exists k: nat ::
        && FirstFree(before.used, request, k) && name == Candidate(request.base, k)
        && after == Extended(before, request, name)
  }

  ghost predicate FirstFree(used: set<string>, request: Request, k: nat) {
    && k >= 1 && Free(used, request.family, Candidate(request.base, k))
    && forall j :: 1 <= j < k ==> !Free(used, request.family, Candidate(request.base, j))
  }

  ghost function Extended(before: Allocations, request: Request, name: string): Allocations {
    var members := Elements(request.family(name));
    Allocations(before.used + members, before.names[request.key := name], before.families[request.key := members])
  }

  /** No identifier is in two families or in a family and reserved, and all are accounted for. */
  ghost predicate Safe(a: Allocations, reserved: set<string>) {
    && reserved <= a.used && a.names.Keys == a.families.Keys
    && (forall k :: k in a.families ==> a.families[k] <= a.used && a.families[k] !! reserved)
    && (forall j, k :: j in a.families && k in a.families && j != k ==> a.families[j] !! a.families[k])
    && (forall u :: u in a.used ==> u in reserved || exists k :: k in a.families && u in a.families[k])
  }

  lemma StepSafe(before: Allocations, request: Request, after: Allocations, name: string, reserved: set<string>)
    requires Safe(before, reserved) && Step(before, request, after, name)
    ensures Safe(after, reserved)
    ensures request.key in after.names && after.names[request.key] == name
    ensures forall k :: k in before.names ==>
            k in after.names && after.names[k] == before.names[k] && after.families[k] == before.families[k]
  {
    if request.key !in before.names {
      assert Free(before.used, request.family, name);
      forall u | u in after.used
        ensures u in reserved || exists k :: k in after.families && u in after.families[k]
      {
        if u in before.used && u !in reserved {
          var k :| k in before.families && u in before.families[k];
          assert k in after.families && u in after.families[k];
        } else if u !in before.used {
          assert request.key in after.families && u in after.families[request.key];
        }
      }
    }
  }

  /** A run of calls through the given states, with the names they returned. */
  ghost predicate Run(states: seq<Allocations>, requests: seq<Request>, names: seq<string>) {
    && |states| == |requests| + 1 && |names| == |requests|
    && forall i :: 0 <= i < |requests| ==> Step(states[i], requests[i], states[i + 1], names[i])
  }

  ghost predicate Fresh(a: Allocations, reserved: set<string>) { a == Allocations(reserved, map[], map[]) }

  lemma {:induction false} RunSafe(states: seq<Allocations>, requests: seq<Request>, names: seq<string>,
                                   reserved: set<string>, n: nat)
    requires Run(states, requests, names) && Fresh(states[0], reserved) && n < |states|
    ensures Safe(states[n], reserved)
  {
    hide Safe, Step;
    if n == 0 {
      FreshSafe(states[0], reserved);
    } else {
      RunSafe(states, requests, names, reserved, n - 1);
      StepSafe(states[n - 1], requests[n - 1], states[n - 1 + 1], names[n - 1], reserved);
    }
  }

  lemma FreshSafe(a: Allocations, reserved: set<string>)
    requires Fresh(a, reserved)
    ensures Safe(a, reserved)
  {
  }

  lemma {:induction false} NameKept(states: seq<Allocations>, requests: seq<Request>, names: seq<string>,
                                    reserved: set<string>, i: nat, n: nat)
    requires Run(states, requests, names) && Fresh(states[0], reserved) && i < n < |states|
    ensures requests[i].key in states[n].names && states[n].names[requests[i].key] == names[i]
    decreases n
  {
    hide Safe, Step;
    RunSafe(states, requests, names, reserved, n - 1);
    StepSafe(states[n - 1], requests[n - 1], states[n - 1 + 1], names[n - 1], reserved);
    if i < n - 1 {
      NameKept(states, requests, names, reserved, i, n - 1);
    }
  }

  /**
   Over any sequence of calls: equal keys get equal names, and the families of different
   keys are disjoint from each other and from the reserved identifiers.
   */
  lemma RunAllocates(states: seq<Allocations>, requests: seq<Request>, names: seq<string>, reserved: set<string>,
                     i: nat, j: nat)
    requires Run(states, requests, names) && Fresh(states[0], reserved) && i < |requests| && j < |requests|
    ensures requests[i].key == requests[j].key ==> names[i] == names[j]
    ensures var last := states[|requests|];
            && requests[i].key in last.families && requests[j].key in last.families
            && last.families[requests[i].key] !! reserved
            && (requests[i].key != requests[j].key ==> last.families[requests[i].key] !! last.families[requests[j].key])
  {
    hide Step;
    RunSafe(states, requests, names, reserved, |requests|);
    NameKept(states, requests, names, reserved, i, |requests|);
    NameKept(states, requests, names, reserved, j, |requests|);
  }

  // ---- Why the search ends

  lemma CandidateInjective(base: string, j: nat, k: nat)
    requires 1 <= j && 1 <= k && Candidate(base, j) == Candidate(base, k)
    ensures j == k
  {
    var a, b := Candidate(base, j), Candidate(base, k);
    assert (j >= 2 ==> |a| > |base|) && (k >= 2 ==> |b| > |base|);
    if j >= 2 && k >= 2 {
      assert Numeral(j) == a[|base|..] && Numeral(k) == b[|base|..];
      NumeralInjective(j, k);
    }
  }

  /** A family position and a taken identifier that stood in the way there. */
  type Obstacle = (nat, string)

  ghost function Obstacles(width: nat, used: set<string>): set<Obstacle> {
    set i: nat, u | 0 <= i < width && u in used :: (i, u)
  }

  /** Each obstacle stopped one of the candidates before the k-th. */
  ghost predicate Spent(spent: set<Obstacle>, request: Request, used: set<string>, k: nat) {
    && spent <= Obstacles(|request.family(request.base)|, used)
    && forall o :: o in spent ==> exists j :: 1 <= j < k && Stops(o, request, j)
  }

  ghost predicate Stops(o: Obstacle, request: Request, j: nat) {
    o.0 < |request.family(Candidate(request.base, j))| && request.family(Candidate(request.base, j))[o.0] == o.1
  }

  /** A candidate that is not free meets an obstacle no earlier candidate met. */
  lemma NewObstacle(request: Request, used: set<string>, k: nat, spent: set<Obstacle>) returns (o: Obstacle)
    requires Injective(request.family) && k >= 1 && Spent(spent, request, used, k)
             && !Free(used, request.family, Candidate(request.base, k))
    ensures o !in spent && Spent(spent + {o}, request, used, k + 1)
    ensures |spent| < |Obstacles(|request.family(request.base)|, used)|
  {
    hide Candidate, Obstacles;
    var name := Candidate(request.base, k);
    var members := request.family(name);
    var m :| m in members && m in used;
    var i: nat :| i < |members| && members[i] == m;
    o := (i, m);
    assert |members| == |request.family(request.base)|;
    ObstacleCounts(|members|, used, i, m);
    assert Stops(o, request, k);
    if o in spent {
      var j :| 1 <= j < k && Stops(o, request, j);
      assert Candidate(request.base, j) == name;
      CandidateInjective(request.base, j, k);
    }
    forall p | p in spent
      ensures exists j :: 1 <= j < k + 1 && Stops(p, request, j)
    {
      var j :| 1 <= j < k && Stops(p, request, j);
      assert 1 <= j < k + 1;
    }
    ProperSubsetSmaller(spent, o, Obstacles(|request.family(request.base)|, used));
  }

  lemma ObstacleCounts(width: nat, used: set<string>, i: nat, u: string)
    requires i < width && u in used
    ensures (i, u) in Obstacles(width, used)
  {
  }

  lemma ProperSubsetSmaller<T>(a: set<T>, x: T, b: set<T>)
    requires a <= b && x in b && x !in a
    ensures |a| < |b|
  {
    assert b == a + (b - a);
    assert x in b - a;
  }

  class IdentAllocator {
    ghost const reserved: set<string>
    var used: set<string>
    var names: map<NameKey, string>
    ghost var families: map<NameKey, set<string>>

    ghost function State(): Allocations
      reads this
    {
      Allocations(used, names, families)
    }

    constructor (runtimeIdentifiers: seq<string>, patternIdentifiers: seq<string>)
      ensures Fresh(State(), reserved) && reserved == Elements(runtimeIdentifiers) + Elements(patternIdentifiers)
    {
      used := Elements(runtimeIdentifiers) + Elements(patternIdentifiers);
      reserved := Elements(runtimeIdentifiers) + Elements(patternIdentifiers);
      names, families := map[], map[];
    }

    /** The name for key, reserving the base or the base with the first suffix that frees the whole family. */
    method Allocate(key: NameKey, base: string, family: Family) returns (name: string)
      requires Injective(family) && Safe(State(), reserved)
      modifies this
      ensures Safe(State(), reserved)
      ensures Step(old(State()), Request(key, base, family), State(), name)
    {
      hide Candidate, Injective, Safe, Spent, Obstacles;
      if key in names {
        return names[key];
      }
      ghost var request, before := Request(key, base, family), State();
      name := base;
      var k := 1;
      ghost var spent: set<Obstacle> := {};
      StartSpent(request, used);
      while true
        invariant k >= 1 && name == Candidate(base, k) && State() == before
        invariant forall j :: 1 <= j < k ==> !Free(used, family, Candidate(base, j))
        invariant Spent(spent, request, used, k)
        decreases |Obstacles(|family(base)|, used)| - |spent|
      {
        var members := family(name);
        var free := AllFree(members);
        if free {
          used := used + Elements(members);
          break;
        }
        ghost var o := NewObstacle(request, used, k, spent);
        spent := spent + {o};
        k := k + 1;
        name := base + Numeral(k);
        NextCandidate(base, k);
      }
      names := names[key := name];
      families := families[key := Elements(family(name))];
      assert FirstFree(before.used, request, k);
      StepSafe(before, request, State(), name, reserved);
    }

    method AllFree(members: seq<string>) returns (free: bool)
      ensures free <==> Elements(members) !! used
    {
      var i := 0;
      while i < |members|
        invariant 0 <= i <= |members|
        invariant forall j :: 0 <= j < i ==> members[j] !in used
      {
        if members[i] in used {
          assert members[i] in Elements(members);
          return false;
        }
        i := i + 1;
      }
      free := true;
    }
  }

  lemma StartSpent(request: Request, used: set<string>)
    ensures Spent({}, request, used, 1) && Candidate(request.base, 1) == request.base
  {
  }

  lemma NextCandidate(base: string, k: nat)
    ensures k >= 2 ==> Candidate(base, k) == base + Numeral(k)
  {
  }
}
