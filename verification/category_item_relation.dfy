/** The persistence entity linking a catalog item to a category, and its
    mapping to and from the `CategoryLink` model (CategoryItemRelationEntity.cs). */
module CategoryItemRelation {
  import opened Wrappers

  datatype RelationEntity = RelationEntity(
    id: string,
    priority: int,
    itemId: string,
    categoryId: string,
    catalogId: string)

  datatype CategoryLink = CategoryLink(
    entryId: string,
    categoryId: string,
    catalogId: string,
    priority: int)

  datatype MappingError = ArgumentNull(paramName: string)

  /** `ToModel`: fills the given link from the entity and returns it; a null
      link throws. */
  function ToModel(e: RelationEntity, link: Option<CategoryLink>): (r: Result<CategoryLink, MappingError>)
    ensures link.None? <==> r.Failure?
    ensures link.None? ==> r.error == ArgumentNull("link")
    ensures r.Success? ==>
              && r.value.entryId == e.itemId
              && r.value.categoryId == e.categoryId
              && r.value.catalogId == e.catalogId
              && r.value.priority == e.priority
  {
    match link
    case None => Failure(ArgumentNull("link"))
    case Some(l) => Success(l.(entryId := e.itemId, categoryId := e.categoryId, catalogId := e.catalogId, priority := e.priority))
  }

  /** `FromModel`: copies category, catalog and priority from the link into
      the entity and returns the entity; a null link throws. */
  function FromModel(e: RelationEntity, link: Option<CategoryLink>): (r: Result<RelationEntity, MappingError>)
    ensures link.None? <==> r.Failure?
    ensures link.None? ==> r.error == ArgumentNull("link")
    ensures r.Success? ==>
              && r.value.categoryId == link.value.categoryId
              && r.value.catalogId == link.value.catalogId
              && r.value.priority == link.value.priority
              && r.value.id == e.id
              && r.value.itemId == e.itemId
  {
    match link
    case None => Failure(ArgumentNull("link"))
    case Some(l) => Success(e.(categoryId := l.categoryId, catalogId := l.catalogId, priority := l.priority))
  }

  /** `Patch`: the link is not editable, so the target stays as it is. */
  function Patch(source: RelationEntity, target: RelationEntity): (r: RelationEntity)
    ensures r == target
  {
    target
  }

  /** `ValueObject` equality over `GetEqualityComponents`: category and catalog. */
  predicate EntityEquals(a: RelationEntity, b: RelationEntity) {
    a.categoryId == b.categoryId && a.catalogId == b.catalogId
  }

  /** Filling a link from an entity built from `link` gives back its
      category, catalog and priority; the entry is the entity's item. */
  lemma RoundTrip(e: RelationEntity, link: CategoryLink, target: CategoryLink)
    ensures FromModel(e, Some(link)).Success?
    ensures var back := ToModel(FromModel(e, Some(link)).value, Some(target));
            && back.Success?
            && back.value.categoryId == link.categoryId
            && back.value.catalogId == link.catalogId
            && back.value.priority == link.priority
            && back.value.entryId == e.itemId
  {
  }

  /** An entity read into a link and stored back from that link is unchanged. */
  lemma FromModelOfOwnLinkIsEqual(e: RelationEntity, target: CategoryLink)
    ensures var link := ToModel(e, Some(target)).value;
            FromModel(e, Some(link)) == Success(e)
  {
  }

  /** Entities that differ only in id, item or priority compare equal. */
  lemma EqualityIgnoresIdItemAndPriority(a: RelationEntity, id: string, itemId: string, priority: int)
    ensures EntityEquals(a, a.(id := id, itemId := itemId, priority := priority))
  {
  }

  /** The equality is an equivalence relation. */
  lemma EntityEqualsIsEquivalence(a: RelationEntity, b: RelationEntity, c: RelationEntity)
    ensures EntityEquals(a, a)
    ensures EntityEquals(a, b) ==> EntityEquals(b, a)
    ensures EntityEquals(a, b) && EntityEquals(b, c) ==> EntityEquals(a, c)
  {
  }
}
