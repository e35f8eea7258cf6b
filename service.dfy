/** The tutorial service: which repository call each retrieval request
    selects, and the create / update / delete logic run against the
    repository (both the current service and the older title-only one). */
module Service {
  import opened Model
  import opened Query
  import opened Repository

  /** getAllTutorials(title, orderBy, limit) of the current service: the
      list query it runs, by which of the three parameters are null. */
  function Dispatch(title: Option<string>, orderBy: Option<string>, limit: Option<int32>)
    : (q: ListQuery)
    ensures q.FindAll? <==> title.None? && orderBy.None? && limit.None?
    ensures q.FindAllBy? <==> title.None? && (orderBy.Some? || limit.Some?)
    ensures q.FindByTitle? <==> title.Some? && orderBy.None? && limit.None?
    ensures q.FindByTitleBy? <==> title.Some? && (orderBy.Some? || limit.Some?)
    ensures q.FindAllBy? ==> q.orderBy == orderBy && q.limit == limit
    ensures q.FindByTitle? ==> q.title == title.value
    ensures q.FindByTitleBy? ==> q.title == title.value && q.orderBy == orderBy && q.limit == limit
  {
    if title.None? then
      if orderBy.Some? || limit.Some? then FindAllBy(orderBy, limit) else FindAll
    else
      if orderBy.Some? || limit.Some? then FindByTitleBy(title.value, orderBy, limit)
      else FindByTitle(title.value)
  }

  /** getAllTutorials(title) of the older service. */
  function LegacyDispatch(title: Option<string>): (q: ListQuery)
    ensures title.None? ==> q == FindAll
    ensures title.Some? ==> q == FindByTitle(title.value)
  {
    if title.None? then FindAll else FindByTitle(title.value)
  }

  /** The older service is the current one with orderBy and limit null. */
  lemma LegacyIsCurrentWithoutClauses(title: Option<string>)
    ensures LegacyDispatch(title) == Dispatch(title, None, None)
  {
  }

  /** Choosing the overload without orderBy/limit changes nothing that the
      database sees beyond the letter case of an SQL keyword: every dispatch
      sends the same statement, up to case, as the overload that takes
      orderBy and limit would for the same arguments. */
  lemma DispatchMatchesOrderedOverload(title: Option<string>, orderBy: Option<string>, limit: Option<int32>)
    ensures
      var sent := StatementOf(Dispatch(title, orderBy, limit));
      var ordered := if title.None? then StatementOf(FindAllBy(orderBy, limit))
                     else StatementOf(FindByTitleBy(title.value, orderBy, limit));
      sent.args == ordered.args && EqualsIgnoreCase(sent.sql, ordered.sql)
  {
    var sent := StatementOf(Dispatch(title, orderBy, limit));
    if title.None? && orderBy.None? && limit.None? {
      assert sent.sql == SelectAllUnordered;
      assert StatementOf(FindAllBy(None, None)).sql == SelectAll;
      KeywordCaseOnly();
    } else {
      assert sent == if title.None? then StatementOf(FindAllBy(orderBy, limit))
                     else StatementOf(FindByTitleBy(title.value, orderBy, limit));
    }
  }

  /** The two spellings of the unfiltered query differ only in the case of FROM. */
  lemma KeywordCaseOnly()
    ensures EqualsIgnoreCase(SelectAllUnordered, SelectAll)
  {
    assert Lowered(SelectAllUnordered) == Lowered(SelectAll);
  }

  class TutorialService {
    const repo: TutorialRepository

    constructor (repo: TutorialRepository)
      ensures this.repo == repo
    {
      this.repo := repo;
    }

    /** Runs the list query Dispatch selects. */
    method GetAllTutorials(title: Option<string>, orderBy: Option<string>, limit: Option<int32>)
      returns (st: Statement)
      requires repo.Valid()
      modifies repo`log
      ensures st == StatementOf(Dispatch(title, orderBy, limit))
      ensures repo.log == old(repo.log) + [Query(Dispatch(title, orderBy, limit))]
    {
      if title.None? {
        if orderBy.Some? || limit.Some? {
          st := repo.FindAllOrdered(orderBy, limit);
        } else {
          st := repo.FindAllRows();
        }
      } else {
        if orderBy.Some? || limit.Some? {
          st := repo.FindByTitleContainingOrdered(title.value, orderBy, limit);
        } else {
          st := repo.FindByTitleContaining(title.value);
        }
      }
    }

    /** Runs the list query LegacyDispatch selects (the older service). */
    method GetAllTutorialsByTitle(title: Option<string>) returns (st: Statement)
      requires repo.Valid()
      modifies repo`log
      ensures st == StatementOf(LegacyDispatch(title))
      ensures repo.log == old(repo.log) + [Query(LegacyDispatch(title))]
    {
      if title.None? {
        st := repo.FindAllRows();
      } else {
        st := repo.FindByTitleContaining(title.value);
      }
    }

    /** Pass-through lookup: absence is a normal outcome. */
    method GetTutorialById(id: int) returns (found: Option<Tutorial>)
      requires repo.Valid()
      modifies repo`log
      ensures found == if id in repo.rows then Some(repo.rows[id]) else None
      ensures repo.log == old(repo.log) + [RepoCall.FindById(id)]
    {
      found := repo.FindById(id);
    }

    /** A new entity with the caller's title and description, unpublished
        whatever the caller sent, its id not set; saved once and returned as
        built (the stored row gets the table's next id). */
    method CreateTutorial(input: Tutorial) returns (created: Tutorial)
      requires repo.Valid()
      modifies repo
      ensures repo.Valid()
      ensures created == Tutorial(UnsetId, input.title, input.description, false)
      ensures !created.published
      ensures old(repo.nextId) !in old(repo.rows)
      ensures repo.rows == old(repo.rows)[old(repo.nextId) := created.(id := old(repo.nextId))]
      ensures repo.nextId > old(repo.nextId)
      ensures repo.log == old(repo.log) + [RepoCall.Save(created)]
    {
      created := Tutorial(UnsetId, input.title, input.description, false);
      var _ := repo.Save(created);
    }

    /** Fetch, overwrite every field but keep the path id, then update. A
        missing id gives None and issues no update. */
    method UpdateTutorial(id: int, input: Tutorial) returns (updated: Option<Tutorial>)
      requires repo.Valid()
      modifies repo
      ensures repo.Valid() && repo.nextId == old(repo.nextId)
      ensures id !in old(repo.rows) ==>
                && updated == None
                && repo.rows == old(repo.rows)
                && repo.log == old(repo.log) + [RepoCall.FindById(id)]
      ensures id in old(repo.rows) ==>
                && updated == Some(Tutorial(id, input.title, input.description, input.published))
                && repo.rows == old(repo.rows)[id := updated.value]
                && repo.log == old(repo.log) + [RepoCall.FindById(id), RepoCall.Update(updated.value)]
    {
      var existing := repo.FindById(id);
      if existing.Some? {
        var t := existing.value;
        t := t.(id := id);
        t := t.(title := input.title);
        t := t.(description := input.description);
        t := t.(published := input.published);
        var _ := repo.Update(t);
        return Some(t);
      }
      return None;
    }

    /** Fetch, and delete only when the row exists; the result is the row as
        it was before deletion. A missing id gives None and issues no delete. */
    method DeleteTutorial(id: int) returns (deleted: Option<Tutorial>)
      requires repo.Valid()
      modifies repo
      ensures repo.Valid() && repo.nextId == old(repo.nextId)
      ensures id !in old(repo.rows) ==>
                && deleted == None
                && repo.rows == old(repo.rows)
                && repo.log == old(repo.log) + [RepoCall.FindById(id)]
      ensures id in old(repo.rows) ==>
                && deleted == Some(old(repo.rows)[id])
                && repo.rows == old(repo.rows) - {id}
                && repo.log == old(repo.log) + [RepoCall.FindById(id), RepoCall.DeleteById(id)]
    {
      var t := repo.FindById(id);
      if t.Some? {
        var _ := repo.DeleteById(id);
        return t;
      }
      return None;
    }

    /** Always issues deleteAll; there is no entity to return. */
    method DeleteAllTutorials() returns (result: Option<Tutorial>)
      requires repo.Valid()
      modifies repo
      ensures repo.Valid()
      ensures result == None
      ensures repo.rows == map[]
      ensures repo.nextId == old(repo.nextId)
      ensures repo.log == old(repo.log) + [RepoCall.DeleteAll]
    {
      var _ := repo.DeleteAll();
      return None;
    }

    /** Always queries the published rows. */
    method FindByPublished() returns (st: Statement)
      requires repo.Valid()
      modifies repo`log
      ensures st == StatementOf(ListQuery.FindByPublished(true))
      ensures st == Statement(SelectByPublished, [BoolArg(true)])
      ensures repo.log == old(repo.log) + [Query(ListQuery.FindByPublished(true))]
    {
      st := repo.FindPublished(true);
    }
  }

  /** A client of the service, using nothing but the contracts above: a
      created tutorial is stored unpublished, whatever the request said;
      an update or delete of a missing id changes no row; after deleteAll
      the table is empty. */
  method ServiceScenario()
  {
    var repo := new TutorialRepository();
    var service := new TutorialService(repo);
    var created := service.CreateTutorial(Tutorial(7, "Spring Boot", "JDBC", true));
    assert !created.published && created.title == "Spring Boot";
    var stored := service.GetTutorialById(1);
    assert stored == Some(Tutorial(1, "Spring Boot", "JDBC", false));
    var missing := service.UpdateTutorial(2, Tutorial(2, "x", "y", true));
    assert missing == None && repo.rows.Keys == {1};
    var gone := service.DeleteTutorial(2);
    assert gone == None && repo.rows.Keys == {1};
    var deleted := service.DeleteTutorial(1);
    assert deleted == stored;
    var _ := service.CreateTutorial(Tutorial(0, "Learn Spring", "", false));
    var none := service.DeleteAllTutorials();
    assert none == None && repo.rows == map[];
  }
}
