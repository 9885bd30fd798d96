/** The records of the knowledge graph (entities, relations, patterns, style
    conventions), the values its operations return, and the pure functions
    that say what its scans and lookups compute. */
module KnowledgeRecords {
  import opened Tables

  /** A named code construct. Timestamps are not modelled. */
  datatype Entity = Entity(
    entityId: string,
    name: string,
    entityType: string,
    summary: string,
    signature: Option<string>,
    language: Option<string>,
    metadata: map<string, string>,
    observations: seq<string>)

  /** A directed, typed edge between two entities. */
  datatype Relation = Relation(
    relationId: string,
    relationType: string,
    fromId: string,
    toId: string,
    metadata: map<string, string>)

  /** A recurring code idiom. */
  datatype Pattern = Pattern(
    patternId: string,
    name: string,
    description: string,
    language: Option<string>,
    example: Option<string>,
    metadata: map<string, string>)

  /** A naming or formatting rule. */
  datatype StyleConvention = StyleConvention(
    conventionId: string,
    name: string,
    description: string,
    language: Option<string>,
    examples: seq<string>,
    metadata: map<string, string>)

  /** One keyword argument of `update_entity`. `entity_id` cannot be one: it
      is the method's own positional parameter. A timestamp keyword
      (`created_at` or `updated_at`, named by `attribute`) changes only what
      the model leaves out, and a keyword that names no attribute fails the
      `hasattr` test; both leave the entity as it is. */
  datatype EntityField =
    | SetName(name: string)
    | SetEntityType(entityType: string)
    | SetSummary(summary: string)
    | SetSignature(signature: Option<string>)
    | SetLanguage(language: Option<string>)
    | SetMetadata(metadata: map<string, string>)
    | SetObservations(observations: seq<string>)
    | SetTimestamp(attribute: string)
    | NotAnAttribute(key: string)

  /** The attributes an `Entity` is declared with. */
  predicate EntityAttribute(k: string) {
    k in {"entity_id", "name", "entity_type", "summary", "signature", "language", "metadata",
          "created_at", "updated_at", "observations"}
  }

  /** A keyword `update_entity` can be called with: a timestamp keyword names
      one of the two timestamps, and a keyword that is no attribute is neither
      a declared attribute nor `entity_id`, which Python refuses as a second
      value for the positional parameter. */
  predicate WellFormedKeyword(u: EntityField) {
    match u
    case SetTimestamp(a) => a == "created_at" || a == "updated_at"
    case NotAnAttribute(k) => !EntityAttribute(k)
    case _ => true
  }

  /** The keyword's name: the attribute `setattr` assigns. */
  function Key(u: EntityField): (k: string)
  {
    match u
    case SetName(_) => "name"
    case SetEntityType(_) => "entity_type"
    case SetSummary(_) => "summary"
    case SetSignature(_) => "signature"
    case SetLanguage(_) => "language"
    case SetMetadata(_) => "metadata"
    case SetObservations(_) => "observations"
    case SetTimestamp(a) => a
    case NotAnAttribute(k) => k
  }

  /** The entity holds the value the keyword assigns. A timestamp keyword and
      a keyword naming no attribute assign nothing the model keeps. */
  predicate Carries(e: Entity, u: EntityField) {
    match u
    case SetName(n) => e.name == n
    case SetEntityType(t) => e.entityType == t
    case SetSummary(s) => e.summary == s
    case SetSignature(s) => e.signature == s
    case SetLanguage(l) => e.language == l
    case SetMetadata(m) => e.metadata == m
    case SetObservations(o) => e.observations == o
    case SetTimestamp(_) => true
    case NotAnAttribute(_) => true
  }

  /** `setattr(entity, key, value)` for one keyword: the entity then holds
      the keyword's value and keeps its id. */
  function Apply(e: Entity, u: EntityField): (r: Entity)
    ensures r.entityId == e.entityId
    ensures Carries(r, u)
  {
    match u
    case SetName(n) => e.(name := n)
    case SetEntityType(t) => e.(entityType := t)
    case SetSummary(s) => e.(summary := s)
    case SetSignature(s) => e.(signature := s)
    case SetLanguage(l) => e.(language := l)
    case SetMetadata(m) => e.(metadata := m)
    case SetObservations(o) => e.(observations := o)
    case SetTimestamp(_) => e
    case NotAnAttribute(_) => e
  }

  /** A keyword leaves alone the value another attribute holds. */
  lemma ApplyKeepsOthers(e: Entity, u: EntityField, v: EntityField)
    requires Key(u) != Key(v) && Carries(e, v)
    ensures Carries(Apply(e, u), v)
  {
  }

  /** The keyword arguments applied in order, as `update_entity`'s loop does. */
  function ApplyUpdates(e: Entity, us: seq<EntityField>): (r: Entity)
    requires forall u :: u in us ==> WellFormedKeyword(u)
    ensures r.entityId == e.entityId
    ensures (forall u :: u in us ==> !u.SetName?) ==> r.name == e.name
    ensures (forall u :: u in us ==> !u.SetEntityType?) ==> r.entityType == e.entityType
    ensures (forall u :: u in us ==> !u.SetSummary?) ==> r.summary == e.summary
    ensures (forall u :: u in us ==> !u.SetSignature?) ==> r.signature == e.signature
    ensures (forall u :: u in us ==> !u.SetLanguage?) ==> r.language == e.language
    ensures (forall u :: u in us ==> !u.SetMetadata?) ==> r.metadata == e.metadata
    ensures (forall u :: u in us ==> !u.SetObservations?) ==> r.observations == e.observations
  {
    if us == [] then e else Apply(ApplyUpdates(e, us[..|us| - 1]), us[|us| - 1])
  }

  /** A keyword that no later keyword overrides decides the value of the
      attribute it names. */
  lemma {:induction false} LastUpdateWins(e: Entity, us: seq<EntityField>, i: int)
    requires 0 <= i < |us| && forall u :: u in us ==> WellFormedKeyword(u)
    requires forall j :: i < j < |us| ==> Key(us[j]) != Key(us[i])
    ensures Carries(ApplyUpdates(e, us), us[i])
  {
    var init := us[..|us| - 1];
    if i < |us| - 1 {
      LastUpdateWins(e, init, i);
      ApplyKeepsOthers(ApplyUpdates(e, init), us[|us| - 1], us[i]);
    }
  }

  /** Keyword arguments have distinct names, so after `update_entity` the
      entity holds the value of every keyword it was given. */
  lemma KeywordsApplied(e: Entity, us: seq<EntityField>)
    requires forall u :: u in us ==> WellFormedKeyword(u)
    requires forall i, j :: 0 <= i < j < |us| ==> Key(us[i]) != Key(us[j])
    ensures forall u :: u in us ==> Carries(ApplyUpdates(e, us), u)
  {
    forall u | u in us
      ensures Carries(ApplyUpdates(e, us), u)
    {
      var i :| 0 <= i < |us| && us[i] == u;
      LastUpdateWins(e, us, i);
    }
  }

  /** `add_observation`'s list after the call: the text is appended only when
      it is not already there. */
  function WithObservation(observations: seq<string>, text: string): (r: seq<string>)
    ensures text in r
    ensures forall x :: x in r <==> x in observations || x == text
    ensures text in observations ==> r == observations
    ensures text !in observations ==> r == observations + [text]
    ensures Distinct(observations) ==> Distinct(r)
  {
    if text in observations then observations else observations + [text]
  }

  /** Repeating an observation changes nothing the second time. */
  lemma ObservationIdempotent(observations: seq<string>, text: string)
    ensures WithObservation(WithObservation(observations, text), text) == WithObservation(observations, text)
  {
  }

  // ---------------------------------------------------------------------
  // Filters of the scans

  /** `find_entity`'s test: equal name and, when a type is given, equal type. */
  predicate EntityNamed(e: Entity, name: string, entityType: Option<string>) {
    e.name == name && (entityType.None? || e.entityType == entityType.value)
  }

  /** `query_entities`'s tests, each applied only when given. */
  predicate EntityQueried(e: Entity, entityType: Option<string>, language: Option<string>,
                          namePattern: Option<string>) {
    && (entityType.None? || e.entityType == entityType.value)
    && (language.None? || e.language == Some(language.value))
    && (namePattern.None? || Search(namePattern.value, e.name))
  }

  /** `find_patterns`'s tests, combined with AND. */
  predicate PatternMatches(p: Pattern, name: Option<string>, language: Option<string>) {
    (name.None? || p.name == name.value) && (language.None? || p.language == Some(language.value))
  }

  /** `find_style_conventions`'s tests, combined with AND. */
  predicate ConventionMatches(c: StyleConvention, name: Option<string>, language: Option<string>) {
    (name.None? || c.name == name.value) && (language.None? || c.language == Some(language.value))
  }

  /** With neither filter given, `find_patterns` returns every pattern. */
  lemma AllPatternsUnfiltered(ps: seq<Pattern>)
    ensures Filter(ps, p => PatternMatches(p, None, None)) == ps
  {
    FilterKeepsAll(ps, p => PatternMatches(p, None, None));
  }

  /** With neither filter given, `find_style_conventions` returns every
      convention. */
  lemma AllConventionsUnfiltered(cs: seq<StyleConvention>)
    ensures Filter(cs, c => ConventionMatches(c, None, None)) == cs
  {
    FilterKeepsAll(cs, c => ConventionMatches(c, None, None));
  }

  // ---------------------------------------------------------------------
  // Relation lookup

  /** The `direction` argument. Any string other than the three known ones
      selects no relation. */
  datatype Direction = Outgoing | Incoming | Both | Unrecognised

  /** The three strings the `direction in [...]` tests know. */
  function DirectionOf(s: string): (d: Direction)
    ensures d == Outgoing <==> s == "outgoing"
    ensures d == Incoming <==> s == "incoming"
    ensures d == Both <==> s == "both"
  {
    if s == "outgoing" then Outgoing
    else if s == "incoming" then Incoming
    else if s == "both" then Both
    else Unrecognised
  }

  predicate TypeAccepts(r: Relation, relationType: Option<string>) {
    relationType.None? || r.relationType == relationType.value
  }

  /** The relation leaves `id` (and outgoing relations are asked for). */
  predicate LeavesAs(r: Relation, id: string, dir: Direction) {
    (dir == Outgoing || dir == Both) && r.fromId == id
  }

  /** The relation enters `id` (and incoming relations are asked for). */
  predicate EntersAs(r: Relation, id: string, dir: Direction) {
    (dir == Incoming || dir == Both) && r.toId == id
  }

  /** What one iteration of `get_relations`'s loop appends: the outgoing test
      and the incoming test are separate, so a self-loop asked for in both
      directions is appended twice. */
  function Hits(r: Relation, id: string, relationType: Option<string>, dir: Direction): (h: seq<Relation>)
    ensures forall x :: x in h ==> x == r
    ensures r in h <==> (LeavesAs(r, id, dir) || EntersAs(r, id, dir)) && TypeAccepts(r, relationType)
    ensures |h| == 2 <==> LeavesAs(r, id, dir) && EntersAs(r, id, dir) && TypeAccepts(r, relationType)
  {
    (if LeavesAs(r, id, dir) && TypeAccepts(r, relationType) then [r] else [])
    + (if EntersAs(r, id, dir) && TypeAccepts(r, relationType) then [r] else [])
  }

  /** `get_relations` over the relations in registry order. */
  function RelationsOf(rs: seq<Relation>, id: string, relationType: Option<string>, dir: Direction)
    : (found: seq<Relation>)
    ensures |found| <= 2 * |rs|
  {
    if rs == [] then []
    else RelationsOf(rs[..|rs| - 1], id, relationType, dir) + Hits(rs[|rs| - 1], id, relationType, dir)
  }

  /** Scanning one more relation appends its hits. */
  lemma RelationsOfStep(rs: seq<Relation>, i: nat, id: string, relationType: Option<string>, dir: Direction)
    requires i < |rs|
    ensures RelationsOf(rs[..i + 1], id, relationType, dir)
            == RelationsOf(rs[..i], id, relationType, dir) + Hits(rs[i], id, relationType, dir)
  {
    assert rs[..i + 1][..i] == rs[..i];
  }

  /** `get_relations` returns exactly the relations of the registry that have
      `id` at an end the direction asks for and the requested type. */
  lemma {:induction false} RelationsOfMember(rs: seq<Relation>, id: string, relationType: Option<string>,
                                             dir: Direction, x: Relation)
    ensures x in RelationsOf(rs, id, relationType, dir) <==>
      x in rs && (LeavesAs(x, id, dir) || EntersAs(x, id, dir)) && TypeAccepts(x, relationType)
  {
    if rs != [] {
      RelationsOfMember(rs[..|rs| - 1], id, relationType, dir, x);
      assert rs == rs[..|rs| - 1] + [rs[|rs| - 1]];
    }
  }

  /** A direction string other than the three known ones yields no relation. */
  lemma UnrecognisedDirectionFindsNothing(rs: seq<Relation>, id: string, relationType: Option<string>)
    ensures RelationsOf(rs, id, relationType, Unrecognised) == []
  {
    var r := RelationsOf(rs, id, relationType, Unrecognised);
    if r != [] {
      RelationsOfMember(rs, id, relationType, Unrecognised, r[0]);
    }
  }

  /** One iteration's hits on a self-loop asked for in both directions. */
  lemma SelfLoopHits(r: Relation, id: string, relationType: Option<string>, x: Relation)
    requires x.fromId == id && x.toId == id && TypeAccepts(x, relationType)
    ensures multiset(Hits(r, id, relationType, Both))[x] == if r == x then 2 else 0
  {
    var hits := Hits(r, id, relationType, Both);
    if r == x {
      assert hits == [x, x];
    } else {
      assert hits == [] || hits == [r] || hits == [r, r];
    }
  }

  /** With direction "both", every occurrence of a self-loop on `id` is
      returned twice. */
  lemma {:induction false} SelfLoopReturnedTwice(rs: seq<Relation>, id: string, relationType: Option<string>, x: Relation)
    requires x.fromId == id && x.toId == id && TypeAccepts(x, relationType)
    ensures multiset(RelationsOf(rs, id, relationType, Both))[x] == 2 * multiset(rs)[x]
  {
    if rs != [] {
      var init := rs[..|rs| - 1];
      var last := rs[|rs| - 1];
      SelfLoopReturnedTwice(init, id, relationType, x);
      SelfLoopHits(last, id, relationType, x);
      SplitLast(rs);
      var before := RelationsOf(init, id, relationType, Both);
      var hits := Hits(last, id, relationType, Both);
      assert RelationsOf(rs, id, relationType, Both) == before + hits;
      var m1 := multiset(before + hits)[x];
      assert m1 == multiset(before)[x] + multiset(hits)[x];
      var m2 := multiset(rs)[x];
      assert m2 == multiset(init)[x] + multiset([last])[x];
      assert multiset([last])[x] == if last == x then 1 else 0;
    }
  }

  /** The entity at the other end of `r`, seen from `id`. */
  function OtherEnd(r: Relation, id: string): (o: string)
    ensures o == r.fromId || o == r.toId
    ensures r.fromId == id ==> o == r.toId
    ensures r.toId == id ==> o == r.fromId
  {
    if r.fromId == id then r.toId else r.fromId
  }

  /** `get_related_entities`' loop: the entity at the other end of each
      relation, in order, skipping ends that do not resolve. */
  function RelatedOf(rels: seq<Relation>, entities: map<string, Entity>, id: string): (r: seq<Entity>)
    ensures |r| <= |rels|
  {
    if rels == [] then []
    else
      var last := rels[|rels| - 1];
      RelatedOf(rels[..|rels| - 1], entities, id)
      + (if OtherEnd(last, id) in entities then [entities[OtherEnd(last, id)]] else [])
  }

  /** An entity is related exactly when it stands at the resolved other end of
      one of the relations. */
  lemma {:induction false} RelatedOfMember(rels: seq<Relation>, entities: map<string, Entity>, id: string, e: Entity)
    ensures e in RelatedOf(rels, entities, id) <==>
      exists r :: r in rels && OtherEnd(r, id) in entities && entities[OtherEnd(r, id)] == e
  {
    if rels != [] {
      var init := rels[..|rels| - 1];
      RelatedOfMember(init, entities, id, e);
      assert rels == init + [rels[|rels| - 1]];
    }
  }

  /** When every other end resolves, nothing is skipped. */
  lemma {:induction false} RelatedOfAllResolve(rels: seq<Relation>, entities: map<string, Entity>, id: string)
    requires forall r :: r in rels ==> r.fromId in entities && r.toId in entities
    ensures |RelatedOf(rels, entities, id)| == |rels|
  {
    if rels != [] {
      RelatedOfAllResolve(rels[..|rels| - 1], entities, id);
    }
  }

  // ---------------------------------------------------------------------
  // Values returned by get_entity_context and to_dict

  /** The dictionary `get_entity_context` returns: `{}` for an unknown id;
      the entity, its relations and the expanded related entities keyed by
      their ids; or, for a related entity at the last level, the entity with
      an empty relation list and no `related_entities` key. */
  datatype Context =
    | Unknown
    | Expanded(entity: Entity, relations: seq<Relation>, related: map<string, Context>)
    | Brief(entity: Entity)

  /** The dictionary `to_dict` produces and `from_dict` consumes: the four
      registries, each keyed by id in insertion order with every field of
      every record, and the counter, which `from_dict` reads as 0 when the
      key is missing. A missing registry reads as an empty one. */
  datatype Snapshot = Snapshot(
    entities: Table<Entity>,
    relations: Table<Relation>,
    patterns: Table<Pattern>,
    styleConventions: Table<StyleConvention>,
    nextId: Option<int>)
}
