/**
 * The unit-test scenarios of the document manager, replayed against the model:
 * each method builds a fresh manager, saves documents and checks what save,
 * search and findById give back.
 */
module Scenarios {
  import opened Wrappers
  import opened Documents

  function Doc(title: string): Document
  {
    Document(None, Some(title), None, None, None)
  }

  /** A new document gets an id and a creation time; its fields are kept. */
  method SaveAssignsIdAndCreated()
  {
    var manager := new DocumentManager();
    var author := Author(Some("author1"), Some("John"));
    var saved := manager.Save(Document(None, Some("Doc Title"), Some("Some content"), Some(author), None), "id-1", 100);
    assert saved.id == Some("id-1") && saved.created == Some(100);
    assert saved.title == Some("Doc Title") && saved.content == Some("Some content");
  }

  /** Saving again under an existing id replaces the fields but keeps the creation time. */
  method SavePreservesCreated()
  {
    var manager := new DocumentManager();
    var author := Author(Some("a1"), Some("Author"));
    var _ := manager.Save(Document(Some("123"), Some("Original"), Some("Content"), Some(author), Some(7)), "id-1", 100);
    var result := manager.Save(Document(Some("123"), Some("Updated"), Some("Updated content"), Some(author), None), "id-2", 200);
    assert result.title == Some("Updated") && result.content == Some("Updated content");
    assert result.id == Some("123") && result.created == Some(7);
  }

  /** A saved document is found under the id save returned; an unknown id finds nothing. */
  method FindSavedAndMissing()
  {
    var manager := new DocumentManager();
    var saved := manager.Save(Doc("Find me"), "id-1", 100);
    var found := manager.FindById(saved.id.value);
    assert found.Some? && found.value.title == Some("Find me");
    assert manager.FindById("nonexistent") == None;
  }

  /** Of "Java Tasks" and "Python Tasks", only the first starts with "Java". */
  method SearchByTitlePrefix()
  {
    var manager := new DocumentManager();
    var java := manager.Save(Document(None, Some("Java Tasks"), Some("Some content"), Some(Author(Some("a1"), None)), None), "id-1", 100);
    var python := manager.Save(Doc("Python Tasks"), "id-2", 100);
    var request := NoCriteria.(titlePrefixes := Some(["Java"]));
    assert Matches(request, java) by {
      assert "Java Tasks"[..4] == "Java";
      assert "Java" in ["Java"] && JavaText.StartsWith("Java Tasks", "Java");
    }
    assert !Matches(request, python) by {
      assert "Python Tasks"[..4][0] == 'P';
    }
    assert manager.storage.Values == {java, python};
    var results := manager.Search(request);
    assert results == {java};
    assert |results| == 1;
  }

  /** "Important document" contains "document". */
  method SearchByContent()
  {
    var manager := new DocumentManager();
    var doc := manager.Save(Document(None, Some("Doc 1"), Some("Important document"), None, None), "id-1", 100);
    var request := NoCriteria.(containsContents := Some(["document"]));
    assert JavaText.OccursAt("Important document", "document", 10);
    JavaText.OccurrenceIsContained("Important document", "document", 10);
    assert Matches(request, doc);
    assert manager.storage.Values == {doc};
    var results := manager.Search(request);
    assert results == {doc};
  }

  /** A document whose author id is listed is found. */
  method SearchByAuthorId()
  {
    var manager := new DocumentManager();
    var doc := manager.Save(Document(None, Some("Author match"), None, Some(Author(Some("a123"), Some("Taras"))), None), "id-1", 100);
    var request := NoCriteria.(authorIds := Some(["a123"]));
    assert manager.storage.Values == {doc};
    var results := manager.Search(request);
    assert results == {doc};
  }

  /** Of documents created a day ago and now, only the recent one is in the last hour. */
  method SearchByCreatedRange()
  {
    var now := 1_000_000;
    var manager := new DocumentManager();
    var dayOld := manager.Save(Document(None, Some("Old"), None, None, Some(now - 86400)), "id-1", now);
    var recent := manager.Save(Document(None, Some("Recent"), None, None, Some(now)), "id-2", now);
    var request := NoCriteria.(createdFrom := Some(now - 3600), createdTo := Some(now + 60));
    assert manager.storage.Values == {dayOld, recent};
    var results := manager.Search(request);
    assert results == {recent};
  }

  /** Without criteria, both saved documents come back. */
  method SearchWithoutCriteriaReturnsAll()
  {
    var manager := new DocumentManager();
    var one := manager.Save(Doc("1"), "id-1", 100);
    var two := manager.Save(Doc("2"), "id-2", 100);
    manager.SearchWithoutCriteria();
    assert |manager.storage| == 2;
    var results := manager.Search(NoCriteria);
    assert |results| == 2;
  }
}
