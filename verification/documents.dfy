/**
 * The document manager: an in-memory store of documents keyed by id, with an
 * upsert (`save`) that assigns missing ids and freezes the creation time, a
 * multi-criteria `search`, and a lookup by id (`findById`).
 *
 * The two non-deterministic inputs of `save`, a random UUID and the current
 * time, are parameters (`freshId`, `now`). An `Instant` is an integer time
 * stamp; `isBefore`/`isAfter` are `<` and `>` on it.
 */
module Documents {
  import opened Wrappers
  import opened JavaText

  type Instant = int

  /** An author travels inside a document; search compares only its id. */
  datatype Author = Author(id: Option<string>, name: Option<string>)

  /** A stored record. Every field may be absent (`null`). */
  datatype Document = Document(
    id: Option<string>,
    title: Option<string>,
    content: Option<string>,
    author: Option<Author>,
    created: Option<Instant>)

  /**
   * The five search criteria. An absent criterion lets every document through;
   * a present list, even an empty one, is an active criterion.
   */
  datatype SearchRequest = SearchRequest(
    titlePrefixes: Option<seq<string>>,
    containsContents: Option<seq<string>>,
    authorIds: Option<seq<string>>,
    createdFrom: Option<Instant>,
    createdTo: Option<Instant>)

  /** The request built with no criterion at all. */
  const NoCriteria := SearchRequest(None, None, None, None, None)

  // ---------------------------------------------------------------------------
  // save

  /** `save` generates an id when the given one is null or empty. */
  predicate IsBlankId(id: Option<string>)
  {
    id.None? || id.value == ""
  }

  /**
   * The document `save` stores and returns. A blank id is replaced by
   * `freshId` and the creation time becomes the caller's or `now`, without
   * looking at the store. Otherwise the creation time of a document already
   * stored under the id wins (when it has one), then the caller's, then `now`.
   * Title, content and author are always the caller's.
   */
  function Upsert(storage: map<string, Document>, document: Document, freshId: string, now: Instant): (saved: Document)
    requires freshId != ""
    ensures saved.id.Some? && saved.id.value != "" && saved.created.Some?
    ensures saved.title == document.title && saved.content == document.content && saved.author == document.author
    ensures IsBlankId(document.id) ==> saved.id == Some(freshId)
    ensures !IsBlankId(document.id) ==> saved.id == document.id
    ensures IsBlankId(document.id) || document.id.value !in storage || storage[document.id.value].created.None? ==>
      saved.created == if document.created.Some? then document.created else Some(now)
    ensures !IsBlankId(document.id) && document.id.value in storage && storage[document.id.value].created.Some? ==>
      saved.created == storage[document.id.value].created
  {
    if IsBlankId(document.id) then
      document.(id := Some(freshId), created := Some(document.created.GetOr(now)))
    else
      var key := document.id.value;
      var created :=
        if key in storage && storage[key].created.Some? then storage[key].created.value
        else document.created.GetOr(now);
      document.(created := Some(created))
  }

  /** The store after `save`: the saved document under its id, all else as before. */
  function Stored(storage: map<string, Document>, saved: Document): map<string, Document>
    requires saved.id.Some?
  {
    storage[saved.id.value := saved]
  }

  /**
   * What `save` keeps true of the store: each document sits under its own id
   * and has a creation time.
   */
  ghost predicate WellFormed(storage: map<string, Document>)
  {
    forall key :: key in storage ==> storage[key].id == Some(key) && storage[key].created.Some?
  }

  /** `save` keeps the store well-formed, whatever is saved. */
  lemma UpsertPreservesWellFormed(storage: map<string, Document>, document: Document, freshId: string, now: Instant)
    requires WellFormed(storage) && freshId != ""
    ensures WellFormed(Stored(storage, Upsert(storage, document, freshId, now)))
  {
  }

  /**
   * Creation times are write-once: unless a generated id collides with a
   * stored one, `save` changes no stored creation time, and the store gains
   * exactly the saved id.
   */
  lemma UpsertFreezesCreated(storage: map<string, Document>, document: Document, freshId: string, now: Instant)
    requires WellFormed(storage) && freshId != ""
    requires IsBlankId(document.id) ==> freshId !in storage
    ensures var saved := Upsert(storage, document, freshId, now);
      var after := Stored(storage, saved);
      && after.Keys == storage.Keys + {saved.id.value}
      && (forall key :: key in storage ==> after[key].created == storage[key].created)
  {
  }

  /**
   * Saving again under the id the first save returned keeps the first save's
   * creation time, whatever the second caller supplies.
   */
  lemma SecondSaveKeepsFirstCreated(
    storage: map<string, Document>,
    first: Document, freshId1: string, now1: Instant,
    second: Document, freshId2: string, now2: Instant)
    requires freshId1 != "" && freshId2 != ""
    requires second.id == Upsert(storage, first, freshId1, now1).id
    ensures var saved1 := Upsert(storage, first, freshId1, now1);
      var saved2 := Upsert(Stored(storage, saved1), second, freshId2, now2);
      saved2.id == saved1.id && saved2.created == saved1.created
  {
  }

  /**
   * A fresh id makes the store grow by one; a save under an existing id
   * leaves its size alone.
   */
  lemma UpsertSize(storage: map<string, Document>, document: Document, freshId: string, now: Instant)
    requires freshId != ""
    ensures var saved := Upsert(storage, document, freshId, now);
      |Stored(storage, saved)| == if saved.id.value in storage then |storage| else |storage| + 1
  {
  }

  /**
   * The generated id is not checked against the store: when it collides with a
   * stored id, the stored document is overwritten and its creation time is
   * replaced by the caller's or by `now`.
   */
  lemma CollidingFreshIdOverwritesCreated(storage: map<string, Document>, document: Document, freshId: string, now: Instant)
    requires freshId != "" && IsBlankId(document.id) && freshId in storage
    ensures var saved := Upsert(storage, document, freshId, now);
      && Stored(storage, saved)[freshId] == saved
      && saved.created == Some(document.created.GetOr(now))
  {
  }

  // ---------------------------------------------------------------------------
  // search

  /** Title filter: absent, or the title is present and starts with some prefix. */
  predicate TitleFilter(prefixes: Option<seq<string>>, doc: Document)
  {
    match prefixes
    case None => true
    case Some(ps) => exists p :: p in ps && doc.title.Some? && StartsWith(doc.title.value, p)
  }

  /** Content filter: absent, or the content is present and contains some substring. */
  predicate ContentFilter(contents: Option<seq<string>>, doc: Document)
  {
    match contents
    case None => true
    case Some(subs) => exists sub :: sub in subs && doc.content.Some? && Contains(doc.content.value, sub)
  }

  /**
   * Author filter: absent, or the author is present and its id is one of the
   * listed ids (an author without an id matches no listed id).
   */
  predicate AuthorFilter(ids: Option<seq<string>>, doc: Document)
  {
    match ids
    case None => true
    case Some(ids) => doc.author.Some? && doc.author.value.id.Some? && doc.author.value.id.value in ids
  }

  /** Lower bound: absent, or the document was created and not before it. */
  predicate CreatedFromFilter(from: Option<Instant>, doc: Document)
  {
    match from
    case None => true
    case Some(from) => doc.created.Some? && !(doc.created.value < from)
  }

  /** Upper bound: absent, or the document was created and not after it. */
  predicate CreatedToFilter(to: Option<Instant>, doc: Document)
  {
    match to
    case None => true
    case Some(to) => doc.created.Some? && !(doc.created.value > to)
  }

  /** A document passes a request when it passes all five filters. */
  predicate Matches(request: SearchRequest, doc: Document)
  {
    && TitleFilter(request.titlePrefixes, doc)
    && ContentFilter(request.containsContents, doc)
    && AuthorFilter(request.authorIds, doc)
    && CreatedFromFilter(request.createdFrom, doc)
    && CreatedToFilter(request.createdTo, doc)
  }

  /** A request without criteria lets every document through. */
  lemma NoCriteriaMatchesEverything(doc: Document)
    ensures Matches(NoCriteria, doc)
  {
  }

  /** A present but empty list is a criterion no document meets. */
  lemma EmptyListMatchesNothing(request: SearchRequest, doc: Document)
    requires request.titlePrefixes == Some([]) || request.containsContents == Some([]) || request.authorIds == Some([])
    ensures !Matches(request, doc)
  {
  }

  /**
   * Both date bounds are inclusive, and a document without a creation time
   * fails any bound that is present.
   */
  lemma DateBoundsInclusive(request: SearchRequest, doc: Document)
    ensures doc.created.Some? && request.createdFrom == Some(doc.created.value) ==> CreatedFromFilter(request.createdFrom, doc)
    ensures doc.created.Some? && request.createdTo == Some(doc.created.value) ==> CreatedToFilter(request.createdTo, doc)
    ensures doc.created.None? && (request.createdFrom.Some? || request.createdTo.Some?) ==> !Matches(request, doc)
  {
  }

  /**
   * Within a list criterion one matching alternative is enough: a document
   * matching one title prefix, content substring or author id passes the
   * singleton list of it and every list that holds it.
   */
  lemma AnyAlternativeSuffices(request: SearchRequest, doc: Document, prefix: string, sub: string, authorId: string)
    ensures doc.title.Some? && StartsWith(doc.title.value, prefix) ==>
      && TitleFilter(Some([prefix]), doc)
      && (request.titlePrefixes.Some? && prefix in request.titlePrefixes.value ==> TitleFilter(request.titlePrefixes, doc))
    ensures doc.content.Some? && Contains(doc.content.value, sub) ==>
      && ContentFilter(Some([sub]), doc)
      && (request.containsContents.Some? && sub in request.containsContents.value ==> ContentFilter(request.containsContents, doc))
    ensures doc.author.Some? && doc.author.value.id == Some(authorId) ==>
      && AuthorFilter(Some([authorId]), doc)
      && (request.authorIds.Some? && authorId in request.authorIds.value ==> AuthorFilter(request.authorIds, doc))
  {
  }

  /** Adding alternatives to a list criterion can only let more documents through. */
  lemma MoreAlternativesWiden(ps: seq<string>, qs: seq<string>, doc: Document)
    ensures TitleFilter(Some(ps), doc) ==> TitleFilter(Some(ps + qs), doc)
    ensures ContentFilter(Some(ps), doc) ==> ContentFilter(Some(ps + qs), doc)
    ensures AuthorFilter(Some(ps), doc) ==> AuthorFilter(Some(ps + qs), doc)
  {
  }

  /** The request that keeps only the title criterion of `request`, and so on. */
  function OnlyTitle(request: SearchRequest): SearchRequest { NoCriteria.(titlePrefixes := request.titlePrefixes) }
  function OnlyContents(request: SearchRequest): SearchRequest { NoCriteria.(containsContents := request.containsContents) }
  function OnlyAuthors(request: SearchRequest): SearchRequest { NoCriteria.(authorIds := request.authorIds) }
  function OnlyFrom(request: SearchRequest): SearchRequest { NoCriteria.(createdFrom := request.createdFrom) }
  function OnlyTo(request: SearchRequest): SearchRequest { NoCriteria.(createdTo := request.createdTo) }

  /** The criteria combine by AND: a request matches iff each of its criteria alone does. */
  lemma CriteriaCombineByAnd(request: SearchRequest, doc: Document)
    ensures Matches(request, doc) <==>
      && Matches(OnlyTitle(request), doc)
      && Matches(OnlyContents(request), doc)
      && Matches(OnlyAuthors(request), doc)
      && Matches(OnlyFrom(request), doc)
      && Matches(OnlyTo(request), doc)
  {
  }

  /** The ids of the stored documents that pass `request`. */
  function MatchingIds(storage: map<string, Document>, request: SearchRequest): set<string>
  {
    set key | key in storage && Matches(request, storage[key])
  }

  /** Documents stored under distinct ids of a well-formed store are distinct. */
  lemma {:induction false} DistinctIdsDistinctDocuments(storage: map<string, Document>, ids: set<string>)
    requires WellFormed(storage) && ids <= storage.Keys
    ensures |set key | key in ids :: storage[key]| == |ids|
    decreases ids
  {
    if ids != {} {
      var k :| k in ids;
      var rest := ids - {k};
      DistinctIdsDistinctDocuments(storage, rest);
      assert (set key | key in ids :: storage[key]) == (set key | key in rest :: storage[key]) + {storage[k]};
      assert storage[k] !in (set key | key in rest :: storage[key]);
    }
  }

  // ---------------------------------------------------------------------------
  // the store

  class DocumentManager {
    /** The documents by id. */
    var storage: map<string, Document>

    ghost predicate Valid()
      reads this
    {
      WellFormed(storage)
    }

    constructor ()
      ensures Valid() && storage == map[]
    {
      storage := map[];
    }

    /**
     * Upserts `document` and returns the stored document. `freshId` is the id
     * to use when the document has none, `now` the current time.
     */
    method Save(document: Document, freshId: string, now: Instant) returns (saved: Document)
      requires Valid() && freshId != ""
      modifies this
      ensures saved == Upsert(old(storage), document, freshId, now)
      ensures storage == Stored(old(storage), saved)
      ensures Valid()
      ensures FindById(saved.id.value) == Some(saved)
      ensures forall key :: key in old(storage) && key != saved.id.value ==> FindById(key) == Some(old(storage)[key])
    {
      var doc := document;
      if doc.id.None? || doc.id.value == "" {
        doc := doc.(id := Some(freshId));
        if doc.created.None? {
          doc := doc.(created := Some(now));
        }
      } else {
        var existing := if doc.id.value in storage then Some(storage[doc.id.value]) else None;
        var created := if existing.Some? && existing.value.created.Some? then existing.value.created.value
                       else doc.created.GetOr(now);
        doc := doc.(created := Some(created));
      }
      storage := storage[doc.id.value := doc];
      saved := doc;
    }

    /** The document stored under `id`, if any. */
    function FindById(id: string): (found: Option<Document>)
      reads this
      ensures found.Some? <==> id in storage
      ensures found.Some? ==> found.value == storage[id]
    {
      if id in storage then Some(storage[id]) else None
    }

    /** The stored documents that pass all the criteria of `request`. */
    function Search(request: SearchRequest): (found: set<Document>)
      reads this
      ensures forall doc :: doc in found <==> doc in storage.Values && Matches(request, doc)
    {
      set key | key in storage && Matches(request, storage[key]) :: storage[key]
    }

    /** Search finds one document per matching stored id. */
    lemma SearchSize(request: SearchRequest)
      requires Valid()
      ensures |Search(request)| == |MatchingIds(storage, request)|
    {
      var ids := MatchingIds(storage, request);
      assert Search(request) == set key | key in ids :: storage[key];
      DistinctIdsDistinctDocuments(storage, ids);
    }

    /** A request without criteria returns every stored document. */
    lemma SearchWithoutCriteria()
      requires Valid()
      ensures Search(NoCriteria) == storage.Values
      ensures |Search(NoCriteria)| == |storage|
    {
      assert MatchingIds(storage, NoCriteria) == storage.Keys;
      SearchSize(NoCriteria);
    }

    /** Search answers a request with the intersection of its single-criterion searches. */
    lemma SearchIsIntersection(request: SearchRequest)
      ensures Search(request) ==
        Search(OnlyTitle(request)) * Search(OnlyContents(request)) * Search(OnlyAuthors(request))
        * Search(OnlyFrom(request)) * Search(OnlyTo(request))
    {
    }

    /** A present but empty list criterion makes search return nothing. */
    lemma SearchEmptyList(request: SearchRequest)
      requires request.titlePrefixes == Some([]) || request.containsContents == Some([]) || request.authorIds == Some([])
      ensures Search(request) == {}
    {
    }

    /** No two stored documents share an id. */
    lemma IdsUnique()
      requires Valid()
      ensures forall d1, d2 :: d1 in storage.Values && d2 in storage.Values && d1.id == d2.id ==> d1 == d2
    {
    }
  }
}
