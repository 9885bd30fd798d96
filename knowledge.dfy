/** The knowledge graph: four registries (entities, relations, patterns and
    style conventions) sharing one identifier counter, with the operations
    that add to them, update entities, scan them, expand an entity's context
    and save or restore the whole state as a snapshot. */
module Knowledge {
  import opened Tables
  import opened Ids
  import opened KnowledgeRecords

  class KnowledgeGraph {
    var entities: Table<Entity>
    var relations: Table<Relation>
    var patterns: Table<Pattern>
    var styleConventions: Table<StyleConvention>
    var nextId: int

    /** Each registry is a dict: keys unique and in insertion order. */
    ghost predicate Valid()
      reads this
    {
      entities.Wf() && relations.Wf() && patterns.Wf() && styleConventions.Wf()
    }

    /** What the operations maintain from an empty graph on (see
        `ConsistentState`). A snapshot restored by `FromDict` keeps whatever
        it was given. */
    ghost predicate Consistent()
      reads this
    {
      ConsistentState(entities, relations, patterns, styleConventions, nextId)
    }

    constructor ()
      ensures Valid() && Consistent()
      ensures entities == EmptyTable() && relations == EmptyTable()
      ensures patterns == EmptyTable() && styleConventions == EmptyTable()
      ensures nextId == 0
    {
      entities := EmptyTable();
      relations := EmptyTable();
      patterns := EmptyTable();
      styleConventions := EmptyTable();
      nextId := 0;
    }

    /** `_generate_id`: the identifier for the current counter, which then
        advances by exactly one. */
    method GenerateId(prefix: string) returns (id: string)
      modifies this`nextId
      ensures id == IdFor(prefix, old(nextId))
      ensures nextId == old(nextId) + 1
    {
      id := IdFor(prefix, nextId);
      nextId := nextId + 1;
    }

    // -------------------------------------------------------------------
    // Entities

    /** `add_entity`: stores the new entity under a fresh id. A missing
        metadata dict or observation list is passed as an empty one. */
    method AddEntity(name: string, entityType: string, summary: string, signature: Option<string>,
                     language: Option<string>, metadata: map<string, string>, observations: seq<string>)
      returns (id: string)
      requires Valid()
      modifies this
      ensures Valid()
      ensures id == IdFor("entity", old(nextId)) && nextId == old(nextId) + 1
      ensures entities == Put(old(entities), id,
                              Entity(id, name, entityType, summary, signature, language, metadata, observations))
      ensures relations == old(relations) && patterns == old(patterns)
      ensures styleConventions == old(styleConventions)
      ensures old(Consistent()) ==> id !in old(entities.items) && Consistent()
    {
      ghost var wasConsistent := Consistent();
      ghost var next := nextId;
      id := GenerateId("entity");
      var e := Entity(id, name, entityType, summary, signature, language, metadata, observations);
      if wasConsistent {
        EntityAddedConsistent(entities, relations, patterns, styleConventions, next, e);
      }
      entities := Put(entities, id, e);
    }

    /** `get_entity`. */
    function GetEntity(id: string): (r: Option<Entity>)
      reads this
      ensures r.Some? <==> id in entities.items
      ensures r.Some? && Consistent() ==> r.value.entityId == id
    {
      entities.Get(id)
    }

    /** `update_entity`: overwrites the named fields of an existing entity and
        fails, changing nothing, for an unknown id. */
    method UpdateEntity(id: string, updates: seq<EntityField>) returns (ok: bool)
      requires Valid() && forall u :: u in updates ==> WellFormedKeyword(u)
      modifies this
      ensures Valid()
      ensures ok <==> id in old(entities.items)
      ensures ok ==> entities == Put(old(entities), id, ApplyUpdates(old(entities.items[id]), updates))
      ensures !ok ==> entities == old(entities)
      ensures relations == old(relations) && patterns == old(patterns)
      ensures styleConventions == old(styleConventions) && nextId == old(nextId)
      ensures old(Consistent()) ==> Consistent()
    {
      if id !in entities.items {
        return false;
      }
      var e := entities.items[id];
      if Consistent() {
        EntityReplacedConsistent(entities, relations, patterns, styleConventions, nextId, ApplyUpdates(e, updates));
      }
      entities := Put(entities, id, ApplyUpdates(e, updates));
      ok := true;
    }

    /** `add_observation`: appends the text to an existing entity's
        observations unless it is already there; fails, changing nothing,
        for an unknown id. */
    method AddObservation(id: string, text: string) returns (ok: bool)
      requires Valid()
      modifies this
      ensures Valid()
      ensures ok <==> id in old(entities.items)
      ensures ok ==> entities == Put(old(entities), id,
        old(entities.items[id]).(observations := WithObservation(old(entities.items[id]).observations, text)))
      ensures !ok ==> entities == old(entities)
      ensures relations == old(relations) && patterns == old(patterns)
      ensures styleConventions == old(styleConventions) && nextId == old(nextId)
      ensures old(Consistent()) ==> Consistent()
    {
      if id !in entities.items {
        return false;
      }
      var e := entities.items[id];
      if text !in e.observations {
        if Consistent() {
          EntityReplacedConsistent(entities, relations, patterns, styleConventions, nextId,
                                   e.(observations := e.observations + [text]));
        }
        entities := Put(entities, id, e.(observations := e.observations + [text]));
      }
      ok := true;
    }

    /** `find_entity`: the entities with this name (and type, when given),
        in registry order. */
    method FindEntity(name: string, entityType: Option<string>) returns (r: seq<Entity>)
      requires entities.Wf()
      ensures r == Filter(Values(entities), e => EntityNamed(e, name, entityType))
    {
      ghost var all := Values(entities);
      r := [];
      var i := 0;
      while i < |entities.order|
        invariant 0 <= i <= |entities.order|
        invariant r == Filter(all[..i], e => EntityNamed(e, name, entityType))
      {
        var e := entities.items[entities.order[i]];
        FilterStep(all, i, e => EntityNamed(e, name, entityType));
        if e.name == name && (entityType.None? || e.entityType == entityType.value) {
          r := r + [e];
        }
        i := i + 1;
      }
      assert all[..i] == all;
    }

    // -------------------------------------------------------------------
    // Relations

    /** `add_relation`: fails, changing nothing, unless both endpoints are
        entities; otherwise stores the relation under a fresh id. */
    method AddRelation(fromId: string, toId: string, relationType: string, metadata: map<string, string>)
      returns (id: Option<string>)
      requires Valid()
      modifies this
      ensures Valid()
      ensures id.None? <==> fromId !in old(entities.items) || toId !in old(entities.items)
      ensures id.None? ==> relations == old(relations) && nextId == old(nextId)
      ensures id.Some? ==> && id.value == IdFor("relation", old(nextId))
                           && nextId == old(nextId) + 1
                           && relations == Put(old(relations), id.value,
                                               Relation(id.value, relationType, fromId, toId, metadata))
      ensures entities == old(entities) && patterns == old(patterns)
      ensures styleConventions == old(styleConventions)
      ensures old(Consistent()) ==> Consistent() && (id.Some? ==> id.value !in old(relations.items))
    {
      if fromId !in entities.items || toId !in entities.items {
        return None;
      }
      ghost var wasConsistent := Consistent();
      ghost var next := nextId;
      var rid := GenerateId("relation");
      var r := Relation(rid, relationType, fromId, toId, metadata);
      if wasConsistent {
        RelationAddedConsistent(entities, relations, patterns, styleConventions, next, r);
      }
      relations := Put(relations, rid, r);
      id := Some(rid);
    }

    /** `get_relations`: the relations at `id` in the given direction (and of
        the given type), in registry order. */
    method GetRelations(id: string, relationType: Option<string>, dir: Direction) returns (r: seq<Relation>)
      requires relations.Wf()
      ensures r == RelationsOf(Values(relations), id, relationType, dir)
    {
      ghost var all := Values(relations);
      r := [];
      var i := 0;
      while i < |relations.order|
        invariant 0 <= i <= |relations.order|
        invariant r == RelationsOf(all[..i], id, relationType, dir)
      {
        var rel := relations.items[relations.order[i]];
        RelationsOfStep(all, i, id, relationType, dir);
        assert rel == all[i];
        var hits := RelationHits(rel, id, relationType, dir);
        r := r + hits;
        i := i + 1;
      }
      assert all[..i] == all;
    }

    /** The body of `get_relations`' loop for one relation: the outgoing
        test, then the incoming test, each appending the relation. */
    static method RelationHits(rel: Relation, id: string, relationType: Option<string>, dir: Direction)
      returns (hits: seq<Relation>)
      ensures hits == Hits(rel, id, relationType, dir)
    {
      var typeOk := relationType.None? || rel.relationType == relationType.value;
      hits := [];
      if (dir == Outgoing || dir == Both) && rel.fromId == id && typeOk {
        hits := hits + [rel];
      }
      if (dir == Incoming || dir == Both) && rel.toId == id && typeOk {
        hits := hits + [rel];
      }
    }

    /** `get_related_entities`: for each relation `get_relations` returns, the
        entity at its other end, skipping ends that do not resolve. */
    method GetRelatedEntities(id: string, relationType: Option<string>, dir: Direction) returns (r: seq<Entity>)
      requires relations.Wf()
      ensures r == RelatedOf(RelationsOf(Values(relations), id, relationType, dir), entities.items, id)
      ensures |r| <= |RelationsOf(Values(relations), id, relationType, dir)|
    {
      var rels := GetRelations(id, relationType, dir);
      r := [];
      var i := 0;
      while i < |rels|
        invariant 0 <= i <= |rels|
        invariant r == RelatedOf(rels[..i], entities.items, id)
      {
        var rel := rels[i];
        assert rels[..i + 1][..i] == rels[..i] && rels[..i + 1][i] == rel;
        assert RelatedOf(rels[..i + 1], entities.items, id) == r +
          (if OtherEnd(rel, id) in entities.items then [entities.items[OtherEnd(rel, id)]] else []);
        if rel.fromId == id {
          var other := GetEntity(rel.toId);
          if other.Some? {
            r := r + [other.value];
          }
        } else {
          var other := GetEntity(rel.fromId);
          if other.Some? {
            r := r + [other.value];
          }
        }
        i := i + 1;
      }
      assert rels[..i] == rels;
    }

    // -------------------------------------------------------------------
    // Patterns and style conventions

    /** `add_pattern`: stores the new pattern under a fresh id. */
    method AddPattern(name: string, description: string, language: Option<string>, example: Option<string>,
                      metadata: map<string, string>)
      returns (id: string)
      requires Valid()
      modifies this
      ensures Valid()
      ensures id == IdFor("pattern", old(nextId)) && nextId == old(nextId) + 1
      ensures patterns == Put(old(patterns), id, Pattern(id, name, description, language, example, metadata))
      ensures entities == old(entities) && relations == old(relations)
      ensures styleConventions == old(styleConventions)
      ensures old(Consistent()) ==> id !in old(patterns.items) && Consistent()
    {
      ghost var wasConsistent := Consistent();
      ghost var next := nextId;
      id := GenerateId("pattern");
      var p := Pattern(id, name, description, language, example, metadata);
      if wasConsistent {
        PatternAddedConsistent(entities, relations, patterns, styleConventions, next, p);
      }
      patterns := Put(patterns, id, p);
    }

    /** `get_pattern`. */
    function GetPattern(id: string): (r: Option<Pattern>)
      reads this
      ensures r.Some? <==> id in patterns.items
      ensures r.Some? && Consistent() ==> r.value.patternId == id
    {
      patterns.Get(id)
    }

    /** `find_patterns`: the patterns passing both optional filters, in
        registry order. */
    method FindPatterns(name: Option<string>, language: Option<string>) returns (r: seq<Pattern>)
      requires patterns.Wf()
      ensures r == Filter(Values(patterns), p => PatternMatches(p, name, language))
    {
      ghost var all := Values(patterns);
      r := [];
      var i := 0;
      while i < |patterns.order|
        invariant 0 <= i <= |patterns.order|
        invariant r == Filter(all[..i], p => PatternMatches(p, name, language))
      {
        var p := patterns.items[patterns.order[i]];
        FilterStep(all, i, p => PatternMatches(p, name, language));
        if (name.None? || p.name == name.value) && (language.None? || p.language == Some(language.value)) {
          r := r + [p];
        }
        i := i + 1;
      }
      assert all[..i] == all;
    }

    /** `add_style_convention`: stores the new convention under a fresh id. */
    method AddStyleConvention(name: string, description: string, language: Option<string>, examples: seq<string>,
                              metadata: map<string, string>)
      returns (id: string)
      requires Valid()
      modifies this
      ensures Valid()
      ensures id == IdFor("convention", old(nextId)) && nextId == old(nextId) + 1
      ensures styleConventions == Put(old(styleConventions), id,
                                      StyleConvention(id, name, description, language, examples, metadata))
      ensures entities == old(entities) && relations == old(relations) && patterns == old(patterns)
      ensures old(Consistent()) ==> id !in old(styleConventions.items) && Consistent()
    {
      ghost var wasConsistent := Consistent();
      ghost var next := nextId;
      id := GenerateId("convention");
      var c := StyleConvention(id, name, description, language, examples, metadata);
      if wasConsistent {
        ConventionAddedConsistent(entities, relations, patterns, styleConventions, next, c);
      }
      styleConventions := Put(styleConventions, id, c);
    }

    /** `get_style_convention`. */
    function GetStyleConvention(id: string): (r: Option<StyleConvention>)
      reads this
      ensures r.Some? <==> id in styleConventions.items
      ensures r.Some? && Consistent() ==> r.value.conventionId == id
    {
      styleConventions.Get(id)
    }

    /** `find_style_conventions`: the conventions passing both optional
        filters, in registry order. */
    method FindStyleConventions(name: Option<string>, language: Option<string>) returns (r: seq<StyleConvention>)
      requires styleConventions.Wf()
      ensures r == Filter(Values(styleConventions), c => ConventionMatches(c, name, language))
    {
      ghost var all := Values(styleConventions);
      r := [];
      var i := 0;
      while i < |styleConventions.order|
        invariant 0 <= i <= |styleConventions.order|
        invariant r == Filter(all[..i], c => ConventionMatches(c, name, language))
      {
        var c := styleConventions.items[styleConventions.order[i]];
        FilterStep(all, i, c => ConventionMatches(c, name, language));
        if (name.None? || c.name == name.value) && (language.None? || c.language == Some(language.value)) {
          r := r + [c];
        }
        i := i + 1;
      }
      assert all[..i] == all;
    }

    // -------------------------------------------------------------------
    // Queries

    /** `query_entities`: a prefix, in registry order, of the entities that
        pass every given filter. The length test runs after each append, so
        the result holds up to `limit` entities when `limit` is at least 1
        and up to one entity otherwise. */
    method QueryEntities(entityType: Option<string>, language: Option<string>, namePattern: Option<string>,
                         limit: int)
      returns (r: seq<Entity>)
      requires entities.Wf()
      ensures var matches := Filter(Values(entities), e => EntityQueried(e, entityType, language, namePattern));
              var cap := if limit >= 1 then limit else 1;
              r <= matches && |r| == if |matches| < cap then |matches| else cap
      ensures forall e :: e in r ==> e in entities.items.Values && EntityQueried(e, entityType, language, namePattern)
    {
      var all := Values(entities);
      ghost var keep := e => EntityQueried(e, entityType, language, namePattern);
      ghost var cap := if limit >= 1 then limit else 1;
      r := [];
      var i := 0;
      while i < |all|
        invariant 0 <= i <= |all|
        invariant r == Filter(all[..i], keep)
        invariant |r| < cap
      {
        var e := all[i];
        FilterStep(all, i, keep);
        var pass := EntityPasses(e, entityType, language, namePattern);
        if pass {
          r := r + [e];
          if |r| >= limit {
            QueryStopped(entityType, language, namePattern, limit, r, i + 1);
            return;
          }
        }
        i := i + 1;
      }
      assert all[..i] == all;
      FilterAccepted(all, keep);
      QueryResultsStored(r, all);
    }

    /** The tests of `query_entities`' loop for one entity, each skipping it
        as soon as it fails. */
    static method EntityPasses(e: Entity, entityType: Option<string>, language: Option<string>,
                               namePattern: Option<string>)
      returns (pass: bool)
      ensures pass == EntityQueried(e, entityType, language, namePattern)
    {
      pass := true;
      if entityType.Some? && e.entityType != entityType.value {
        pass := false;
      } else if language.Some? && e.language != Some(language.value) {
        pass := false;
      } else if namePattern.Some? && !Search(namePattern.value, e.name) {
        pass := false;
      }
    }

    /** When the loop of `query_entities` breaks after `n` entities, what it
        has collected meets the method's postcondition. */
    lemma QueryStopped(entityType: Option<string>, language: Option<string>, namePattern: Option<string>,
                       limit: int, r: seq<Entity>, n: nat)
      requires entities.Wf() && n <= |entities.order|
      requires r == Filter(Values(entities)[..n], e => EntityQueried(e, entityType, language, namePattern))
      requires |r| >= limit && 1 <= |r| <= (if limit >= 1 then limit else 1)
      ensures var matches := Filter(Values(entities), e => EntityQueried(e, entityType, language, namePattern));
              var cap := if limit >= 1 then limit else 1;
              r <= matches && |r| == if |matches| < cap then |matches| else cap
      ensures forall e :: e in r ==> e in entities.items.Values && EntityQueried(e, entityType, language, namePattern)
    {
      var all := Values(entities);
      FilterPrefix(all, n, e => EntityQueried(e, entityType, language, namePattern));
      FilterAccepted(all, e => EntityQueried(e, entityType, language, namePattern));
      QueryResultsStored(r, all);
    }

    /** Elements of a prefix of a filter of the registry's values are entities
        of the registry. */
    lemma QueryResultsStored(r: seq<Entity>, all: seq<Entity>)
      requires entities.Wf() && all == Values(entities)
      requires forall e :: e in r ==> e in all
      ensures forall e :: e in r ==> e in entities.items.Values
    {
      forall e | e in r
        ensures e in entities.items.Values
      {
        var i :| 0 <= i < |all| && all[i] == e;
        assert entities.order[i] in entities.items;
      }
    }

    // -------------------------------------------------------------------
    // Context expansion

    /** The entities `get_related_entities(id)` returns with its defaults: any
        relation type, both directions. */
    function RelatedEntities(id: string): (r: seq<Entity>)
      reads this
      requires Valid()
      ensures |r| <= |RelationsOf(Values(relations), id, None, Both)|
    {
      RelatedOf(RelationsOf(Values(relations), id, None, Both), entities.items, id)
    }

    /** `get_entity_context`: `{}` for an unknown id; otherwise the entity,
        all its relations and, when `depth > 0`, an entry per related entity,
        expanded again with `depth - 1` while `depth > 1`. The depth falls on
        every nested call, so the expansion ends on cyclic graphs too. */
    function GetEntityContext(id: string, depth: int): (c: Context)
      reads this
      requires Valid()
      ensures c.Unknown? <==> id !in entities.items
      ensures c.Brief? == false
      ensures c.Expanded? ==> c.entity == entities.items[id]
                              && c.relations == RelationsOf(Values(relations), id, None, Both)
      ensures c.Expanded? && depth <= 0 ==> c.related == map[]
      ensures c.Expanded? && depth > 0 ==> c.related.Keys == set e | e in RelatedEntities(id) :: e.entityId
      decreases if depth > 0 then depth else 0, 1, 0
    {
      if id !in entities.items then Unknown
      else
        Expanded(entities.items[id], RelationsOf(Values(relations), id, None, Both),
                 if depth > 0 then RelatedContexts(RelatedEntities(id), depth) else map[])
    }

    /** The loop over the related entities filling `related_entities`: keyed
        by each entity's own id, a later entry replacing an earlier one. */
    function RelatedContexts(es: seq<Entity>, depth: int): (m: map<string, Context>)
      reads this
      requires Valid() && depth > 0
      ensures m.Keys == set e | e in es :: e.entityId
      decreases depth, 0, |es|
    {
      if es == [] then map[]
      else
        var e := es[|es| - 1];
        RelatedContexts(es[..|es| - 1], depth)[e.entityId :=
          if depth > 1 then GetEntityContext(e.entityId, depth - 1) else Brief(e)]
    }

    /** Every nested entry is the context of that id one level shallower when
        `depth > 1`, and the bare entity (with no relations) when
        `depth == 1`. */
    lemma {:induction false} RelatedContextEntries(es: seq<Entity>, depth: int, k: string)
      requires Valid() && depth > 0 && k in RelatedContexts(es, depth)
      ensures depth > 1 ==> RelatedContexts(es, depth)[k] == GetEntityContext(k, depth - 1)
      ensures depth == 1 ==> exists e :: e in es && e.entityId == k && RelatedContexts(es, depth)[k] == Brief(e)
    {
      var e := es[|es| - 1];
      if e.entityId != k {
        RelatedContextEntries(es[..|es| - 1], depth, k);
      }
    }

    /** In a consistent graph every nested entry of a deeper expansion is
        itself expanded: related entities are stored under their own ids. */
    lemma NestedContextsExpanded(id: string, depth: int, k: string)
      requires Valid() && Consistent() && depth > 1
      requires GetEntityContext(id, depth).Expanded? && k in GetEntityContext(id, depth).related
      ensures GetEntityContext(id, depth).related[k] == GetEntityContext(k, depth - 1)
      ensures GetEntityContext(id, depth).related[k].Expanded?
    {
      var es := RelatedEntities(id);
      RelatedContextEntries(es, depth, k);
      var e :| e in es && e.entityId == k;
      var rels := RelationsOf(Values(relations), id, None, Both);
      RelatedOfMember(rels, entities.items, id, e);
    }

    // -------------------------------------------------------------------
    // Snapshots

    /** `to_dict`: every registry with every record, and the counter. */
    function ToDict(): (s: Snapshot)
      reads this
      ensures s.nextId.Some?
    {
      Snapshot(entities, relations, patterns, styleConventions, Some(nextId))
    }

    /** `from_dict`: a graph holding the snapshot's registries in their order
        and its counter, or 0 when the snapshot has none. */
    constructor FromDict(data: Snapshot)
      requires data.entities.Wf() && data.relations.Wf() && data.patterns.Wf() && data.styleConventions.Wf()
      ensures Valid()
      ensures entities == data.entities && relations == data.relations
      ensures patterns == data.patterns && styleConventions == data.styleConventions
      ensures nextId == match data.nextId case Some(n) => n case None => 0
    {
      var es := RestoreTable(data.entities);
      var rs := RestoreTable(data.relations);
      var ps := RestoreTable(data.patterns);
      var cs := RestoreTable(data.styleConventions);
      nextId := match data.nextId case Some(n) => n case None => 0;
      entities, relations, patterns, styleConventions := es, rs, ps, cs;
    }
  }

  /** The invariant of a graph built by the operations: every key was
      generated from a counter value below `next` with its registry's prefix,
      every record is stored under its own id, and every relation connects
      entities of the graph. */
  ghost predicate ConsistentState(es: Table<Entity>, rs: Table<Relation>, ps: Table<Pattern>,
                                  cs: Table<StyleConvention>, next: int)
  {
    && IssuedBelow(es.items, "entity", next)
    && IssuedBelow(rs.items, "relation", next)
    && IssuedBelow(ps.items, "pattern", next)
    && IssuedBelow(cs.items, "convention", next)
    && (forall k :: k in es.items ==> es.items[k].entityId == k)
    && (forall k :: k in rs.items ==> rs.items[k].relationId == k)
    && (forall k :: k in ps.items ==> ps.items[k].patternId == k)
    && (forall k :: k in cs.items ==> cs.items[k].conventionId == k)
    && (forall k :: k in rs.items ==> rs.items[k].fromId in es.items && rs.items[k].toId in es.items)
  }

  /** `add_entity` on a consistent graph: the id is new and the graph stays
      consistent. */
  lemma EntityAddedConsistent(es: Table<Entity>, rs: Table<Relation>, ps: Table<Pattern>,
                              cs: Table<StyleConvention>, next: int, e: Entity)
    requires es.Wf() && ConsistentState(es, rs, ps, cs, next) && e.entityId == IdFor("entity", next)
    ensures e.entityId !in es.items
    ensures ConsistentState(Put(es, e.entityId, e), rs, ps, cs, next + 1)
  {
    FreshId(es.items, "entity", next);
    IssuedAfterPut(es.items, "entity", next, e);
    IssuedAfterTick(rs.items, "relation", next);
    IssuedAfterTick(ps.items, "pattern", next);
    IssuedAfterTick(cs.items, "convention", next);
  }

  /** An entity stored under a new key is found by `find_entity` under its
      name, with or without its type. */
  lemma AddedEntityFound(es: Table<Entity>, e: Entity)
    requires es.Wf() && e.entityId !in es.items
    ensures e in Filter(Values(Put(es, e.entityId, e)), x => EntityNamed(x, e.name, None))
    ensures e in Filter(Values(Put(es, e.entityId, e)), x => EntityNamed(x, e.name, Some(e.entityType)))
  {
    var all := Values(Put(es, e.entityId, e));
    PutFreshValues(es, e.entityId, e);
    assert all[|all| - 1] == e;
    FilterMember(all, x => EntityNamed(x, e.name, None), e);
    FilterMember(all, x => EntityNamed(x, e.name, Some(e.entityType)), e);
  }

  /** `update_entity` and `add_observation` on a consistent graph: replacing an
      entity by one with the same id keeps the graph consistent. */
  lemma EntityReplacedConsistent(es: Table<Entity>, rs: Table<Relation>, ps: Table<Pattern>,
                                 cs: Table<StyleConvention>, next: int, e: Entity)
    requires es.Wf() && ConsistentState(es, rs, ps, cs, next) && e.entityId in es.items
    ensures ConsistentState(Put(es, e.entityId, e), rs, ps, cs, next)
  {
    var k := e.entityId;
    assert Put(es, k, e).items.Keys == es.items.Keys;
  }

  /** `add_relation` between existing entities of a consistent graph: the id
      is new and the graph stays consistent. */
  lemma RelationAddedConsistent(es: Table<Entity>, rs: Table<Relation>, ps: Table<Pattern>,
                                cs: Table<StyleConvention>, next: int, r: Relation)
    requires rs.Wf() && ConsistentState(es, rs, ps, cs, next)
    requires r.relationId == IdFor("relation", next) && r.fromId in es.items && r.toId in es.items
    ensures r.relationId !in rs.items
    ensures ConsistentState(es, Put(rs, r.relationId, r), ps, cs, next + 1)
  {
    FreshId(rs.items, "relation", next);
    IssuedAfterPut(rs.items, "relation", next, r);
    IssuedAfterTick(es.items, "entity", next);
    IssuedAfterTick(ps.items, "pattern", next);
    IssuedAfterTick(cs.items, "convention", next);
    var after := Put(rs, r.relationId, r).items;
    forall k | k in after
      ensures after[k].relationId == k
      ensures after[k].fromId in es.items && after[k].toId in es.items
    {
      if k != r.relationId {
        assert after[k] == rs.items[k];
      }
    }
  }

  /** `add_pattern` on a consistent graph: the id is new and the graph stays
      consistent. */
  lemma PatternAddedConsistent(es: Table<Entity>, rs: Table<Relation>, ps: Table<Pattern>,
                               cs: Table<StyleConvention>, next: int, p: Pattern)
    requires ps.Wf() && ConsistentState(es, rs, ps, cs, next) && p.patternId == IdFor("pattern", next)
    ensures p.patternId !in ps.items
    ensures ConsistentState(es, rs, Put(ps, p.patternId, p), cs, next + 1)
  {
    FreshId(ps.items, "pattern", next);
    IssuedAfterPut(ps.items, "pattern", next, p);
    IssuedAfterTick(es.items, "entity", next);
    IssuedAfterTick(rs.items, "relation", next);
    IssuedAfterTick(cs.items, "convention", next);
  }

  /** `add_style_convention` on a consistent graph: the id is new and the
      graph stays consistent. */
  lemma ConventionAddedConsistent(es: Table<Entity>, rs: Table<Relation>, ps: Table<Pattern>,
                                  cs: Table<StyleConvention>, next: int, c: StyleConvention)
    requires cs.Wf() && ConsistentState(es, rs, ps, cs, next) && c.conventionId == IdFor("convention", next)
    ensures c.conventionId !in cs.items
    ensures ConsistentState(es, rs, ps, Put(cs, c.conventionId, c), next + 1)
  {
    FreshId(cs.items, "convention", next);
    IssuedAfterPut(cs.items, "convention", next, c);
    IssuedAfterTick(es.items, "entity", next);
    IssuedAfterTick(rs.items, "relation", next);
    IssuedAfterTick(ps.items, "pattern", next);
  }

  /** One of `from_dict`'s loops: insert every entry of the snapshot's dict,
      in its order, into an empty registry. The result is the dict itself. */
  method RestoreTable<T>(data: Table<T>) returns (t: Table<T>)
    requires data.Wf()
    ensures t == data
  {
    t := EmptyTable();
    var i := 0;
    while i < |data.order|
      invariant 0 <= i <= |data.order|
      invariant t.Wf()
      invariant t.order == data.order[..i]
      invariant forall k :: k in t.items <==> k in data.order[..i]
      invariant forall k :: k in t.items ==> t.items[k] == data.items[k]
    {
      var k := data.order[i];
      assert k !in data.order[..i];
      t := Put(t, k, data.items[k]);
      assert data.order[..i + 1] == data.order[..i] + [k];
      i := i + 1;
    }
    assert data.order[..i] == data.order;
  }

  /** `from_dict(to_dict())`: the restored graph has the same registries, in
      the same order, and the same counter, so the ids it generates next do
      not collide with any it holds. */
  method Reload(g: KnowledgeGraph) returns (h: KnowledgeGraph)
    requires g.Valid()
    ensures fresh(h) && h.Valid()
    ensures h.entities == g.entities && h.relations == g.relations
    ensures h.patterns == g.patterns && h.styleConventions == g.styleConventions
    ensures h.nextId == g.nextId
    ensures g.Consistent() ==> h.Consistent()
  {
    h := new KnowledgeGraph.FromDict(g.ToDict());
  }
}
