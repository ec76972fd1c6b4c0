# Document manager: a Dafny model

This project models `DocumentManager`, an in-memory document store keyed by id. It has three operations:

- `save` is an upsert. It assigns an id when the document has none (or an empty one). It freezes the creation time of a document once the id is stored. It replaces title, content and author wholesale.
- `search` returns the stored documents that pass up to five optional criteria: title prefixes, content substrings, author ids, and an inclusive created-from / created-to range.
- `findById` is an optional lookup.

Files:

- `wrappers.dfy`: module `Wrappers`, the `Option` type that stands for Java's `null` and `Optional`.
- `java_text.dfy`: module `JavaText`, `String.startsWith` and `String.contains`, with `contains` proved equal to "occurs at some position".
- `documents.dfy`: module `Documents`. It holds the `Author`, `Document` and `SearchRequest` values and `Upsert`, the pure specification of `save`. It holds the five search filters and their conjunction `Matches`, and the class `DocumentManager`. The class has the `storage` map, the imperative `Save` method and the read-only `FindById` and `Search` functions. The file also holds the lemmas about them.
- `scenarios.dfy`: module `Scenarios`, the unit-test scenarios of the source replayed against the class as verified client methods.

The random UUID and the current time are parameters of `Save`: `freshId` and `now`. `freshId` must be non-empty, as the text of a UUID always is. An `Instant` is an integer time stamp. `isBefore` and `isAfter` are `<` and `>`.

Three behaviours of the code are easy to miss. The model keeps each of them:

- An absent (null) criterion lets every document through. A present but empty list matches nothing, because `anyMatch` on an empty stream and `contains` on an empty list are both false (DocumentManager.java:38-56).
- When the given id is null or empty, `save` does not consult the store (DocumentManager.java:19-23). A generated id that collides with a stored one overwrites that document, and the stored creation time is replaced by the caller's or by `now` (`CollidingFreshIdOverwritesCreated`). The write-once property of creation times therefore needs `freshId !in storage` for such saves (`UpsertFreezesCreated`).
- When a stored document has no creation time, `Optional.map(Document::getCreated)` gives an empty optional (DocumentManager.java:26-28). `save` then falls back to the caller's creation time, then to `now`. `Upsert` states this fall-back. `save` itself always stores a creation time, so the Java store reaches this state only through aliasing: a caller clearing `created` on a document object it saved earlier.

## Model

| member | source | states |
|---|---|---|
| `Documents.Upsert` | src/main/java/com/github/iChubatenko/documentmanager/DocumentManager.java:18-34 | The saved document always has a non-empty id and a creation time. Title, content and author are the caller's. A blank id becomes `freshId`, with the caller's creation time or `now`. A non-blank id is kept. An id not yet stored, or stored without a creation time, gets the caller's creation time or `now`. An id already stored with a creation time keeps it. |
| `Documents.DocumentManager.Save` | src/main/java/com/github/iChubatenko/documentmanager/DocumentManager.java:18-34 | Returns the `Upsert` result and stores it under its id. Every other entry is unchanged. The store invariant is kept. `FindById` on the returned id gives the returned document. |
| `Documents.DocumentManager.constructor` | src/main/java/com/github/iChubatenko/documentmanager/DocumentManager.java:16 | A new manager starts with an empty store that satisfies the invariant. |
| `Documents.UpsertPreservesWellFormed` | src/main/java/com/github/iChubatenko/documentmanager/DocumentManager.java:19-32 | After any save, every stored document sits under its own id and has a creation time. |
| `Documents.UpsertFreezesCreated` | src/main/java/com/github/iChubatenko/documentmanager/DocumentManager.java:24-32 | Suppose a generated id does not collide with a stored one. Then a save adds exactly the saved id to the keys and changes no stored creation time. |
| `Documents.SecondSaveKeepsFirstCreated` | src/main/java/com/github/iChubatenko/documentmanager/DocumentManager.java:25-29 | A second save under the id the first save returned keeps the first creation time, whatever the second caller supplies. |
| `Documents.UpsertSize` | src/main/java/com/github/iChubatenko/documentmanager/DocumentManager.java:32 | A save under a new id grows the store by one. A save under a stored id leaves its size unchanged. |
| `Documents.CollidingFreshIdOverwritesCreated` | src/main/java/com/github/iChubatenko/documentmanager/DocumentManager.java:19-23 | For every store, a generated id equal to a stored id overwrites that document. The stored creation time is replaced by the caller's creation time or `now`. No collision check exists. |
| `Documents.DocumentManager.FindById` | src/main/java/com/github/iChubatenko/documentmanager/DocumentManager.java:73-75 | Returns a document exactly when the id is a key, and then the document stored under it. |
| `Documents.DocumentManager.Search` | src/main/java/com/github/iChubatenko/documentmanager/DocumentManager.java:36-70 | A document is in the result iff it is stored and passes all five filters. |
| `Documents.DocumentManager.SearchSize` | src/main/java/com/github/iChubatenko/documentmanager/DocumentManager.java:36-70 | In a well-formed store, the result count equals the number of stored ids whose documents pass. |
| `Documents.DocumentManager.SearchWithoutCriteria` | src/test/java/com/github/iChubatenko/documentmanager/DocumentManagerTest.java:159-168 | A request with no criteria returns every stored document. The count equals the store size. |
| `Documents.DocumentManager.SearchIsIntersection` | src/main/java/com/github/iChubatenko/documentmanager/DocumentManager.java:37-68 | The result of a request is the intersection of the results of its five single-criterion requests. |
| `Documents.DocumentManager.SearchEmptyList` | src/main/java/com/github/iChubatenko/documentmanager/DocumentManager.java:38-56 | A present but empty title, content or author list makes the result empty. |
| `Documents.DocumentManager.IdsUnique` | src/main/java/com/github/iChubatenko/documentmanager/DocumentManager.java:32 | In a well-formed store, no two stored documents share an id. |
| `Documents.DistinctIdsDistinctDocuments` | src/main/java/com/github/iChubatenko/documentmanager/DocumentManager.java:32 | In a well-formed store, the documents under a set of ids are as many as the ids. |
| `Documents.NoCriteriaMatchesEverything` | src/main/java/com/github/iChubatenko/documentmanager/DocumentManager.java:38-68 | Every absent criterion passes every document. |
| `Documents.EmptyListMatchesNothing` | src/main/java/com/github/iChubatenko/documentmanager/DocumentManager.java:38-56 | An empty title-prefix, content or author-id list passes no document. |
| `Documents.DateBoundsInclusive` | src/main/java/com/github/iChubatenko/documentmanager/DocumentManager.java:58-68 | A creation time equal to either bound passes that bound. A document without a creation time fails any present bound. |
| `Documents.AnyAlternativeSuffices` | src/main/java/com/github/iChubatenko/documentmanager/DocumentManager.java:38-56 | One matching title prefix, content substring or author id is enough: the document passes the singleton list of it and every list that holds it. |
| `Documents.MoreAlternativesWiden` | src/main/java/com/github/iChubatenko/documentmanager/DocumentManager.java:38-56 | Appending alternatives to a list criterion never rejects a document it passed before. |
| `Documents.CriteriaCombineByAnd` | src/main/java/com/github/iChubatenko/documentmanager/DocumentManager.java:37-68 | A document passes a request iff it passes each of the five criteria taken alone. |
| `Documents.Stored` | src/main/java/com/github/iChubatenko/documentmanager/DocumentManager.java:32 | `storage.put`: the store after a save holds the saved document under its id and every other entry unchanged. |
| `Documents.TitleFilter` | src/main/java/com/github/iChubatenko/documentmanager/DocumentManager.java:38-43 | An absent prefix list passes every document. A present list passes a document whose title is present and starts with at least one listed prefix. |
| `Documents.ContentFilter` | src/main/java/com/github/iChubatenko/documentmanager/DocumentManager.java:45-50 | An absent substring list passes every document. A present list passes a document whose content is present and contains at least one listed substring. |
| `Documents.AuthorFilter` | src/main/java/com/github/iChubatenko/documentmanager/DocumentManager.java:52-56 | An absent id list passes every document. A present list passes a document whose author is present and whose author id is in the list. |
| `Documents.CreatedFromFilter` | src/main/java/com/github/iChubatenko/documentmanager/DocumentManager.java:58-62 | An absent lower bound passes every document. A present one passes a document whose creation time is present and not before the bound. |
| `Documents.CreatedToFilter` | src/main/java/com/github/iChubatenko/documentmanager/DocumentManager.java:64-68 | An absent upper bound passes every document. A present one passes a document whose creation time is present and not after the bound. |
| `Documents.Matches` | src/main/java/com/github/iChubatenko/documentmanager/DocumentManager.java:37-68 | A document passes a request when it passes all five filters, as the chained `filter` calls require. |
| `Documents.MatchingIds` | src/main/java/com/github/iChubatenko/documentmanager/DocumentManager.java:37-70 | The stored ids whose documents pass the request: one per entry of the returned list. |
| `JavaText.StartsWith` | src/main/java/com/github/iChubatenko/documentmanager/DocumentManager.java:41 | `String.startsWith`: the first characters of the string are the prefix. |
| `JavaText.Contains` | src/main/java/com/github/iChubatenko/documentmanager/DocumentManager.java:48 | `String.contains`: some position of the string starts with the substring, scanned left to right. |
| `JavaText.StartsWithIsPrefix` | src/main/java/com/github/iChubatenko/documentmanager/DocumentManager.java:41 | `startsWith` holds exactly when the prefix is a sequence prefix of the title. |
| `JavaText.StartsWithEmptyAndSelf` | src/main/java/com/github/iChubatenko/documentmanager/DocumentManager.java:41 | Every string starts with the empty string and with itself. |
| `JavaText.OccurrenceIsContained` | src/main/java/com/github/iChubatenko/documentmanager/DocumentManager.java:48 | An occurrence of the substring at any position makes `contains` true. |
| `JavaText.ContainedHasOccurrence` | src/main/java/com/github/iChubatenko/documentmanager/DocumentManager.java:48 | When `contains` is true, it returns a position where the substring occurs. |
| `JavaText.ContainsIffOccurs` | src/main/java/com/github/iChubatenko/documentmanager/DocumentManager.java:48 | `contains` holds iff the substring occurs at some position of the content. |

## Left out

- Concurrency: the `ConcurrentHashMap` only makes the store thread-safe. The model is a sequential `map`, so per-key atomicity and live iteration during concurrent writes are not modelled.
- `UUID.randomUUID()` and `Instant.now()` are not modelled. They are the parameters `freshId` and `now` of `Save`. Uniqueness of generated ids is an assumption (`freshId !in storage`) where a lemma needs it, because the code does not check it.
- Lombok's generated builders, getters and setters are not modelled. Datatype constructors and updates stand for them.
- Reference aliasing: `save` stores and returns the caller's own object, so a later change by the caller would change the store. Documents here are immutable values.
- Null `document` or `request` arguments are not modelled. A null `document` always throws a `NullPointerException` (DocumentManager.java:19). A null `request` throws once the store holds a document; on an empty store no filter runs and `search` returns an empty list (DocumentManager.java:37-70). The types exclude both.
- `FindById`: a null id is not modelled. `ConcurrentHashMap.get(null)` throws a `NullPointerException` (DocumentManager.java:74). The `string` parameter type excludes it.
- `StartsWith` and `Contains`: Java compares UTF-16 code units, while a Dafny `string` is a sequence of Unicode scalar values. Java strings with unpaired surrogates, and matches that split a surrogate pair (`"😀".startsWith("\uD83D")` is true in Java), have no counterpart in the model. On well-formed strings the two agree.
- Result order: `storage.values()` has no defined order, so `Search` returns a set. `SearchSize` shows that in a well-formed store this set loses no document.
- Null elements inside a criterion list are not modelled. Lists hold strings. `startsWith(null)` and `contains(null)` would throw. An immutable `List.of` list would also throw on `contains(null)` when an author has no id. The model treats an author without an id as matching no listed id, as a mutable list does.
- Author name is carried but never read, as in the source.
- `Instant` precision: seconds and nanoseconds are folded into one integer. Only its order matters to the source.
