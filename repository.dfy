/** JdbcTutorialRepository over an in-memory table. The rows are a map from
    id to row; the statements the list queries hand to JdbcTemplate are
    returned as values; a ghost log records every call a client makes, so
    that the service layer can promise which calls it issues. */
module Repository {
  import opened Model
  import opened Decimal
  import opened Query

  /** A value bound to a `?` placeholder. */
  datatype SqlArg = TextArg(text: string) | BoolArg(flag: bool)

  /** What a list query hands to JdbcTemplate.query: the SQL text and the
      values of its placeholders, in order. */
  datatype Statement = Statement(sql: string, args: seq<SqlArg>)

  /** The five list queries of the repository. */
  datatype ListQuery =
    | FindAll
    | FindAllBy(orderBy: Option<string>, limit: Option<int32>)
    | FindByPublished(published: bool)
    | FindByTitle(title: string)
    | FindByTitleBy(title: string, orderBy: Option<string>, limit: Option<int32>)

  /** One call a client made on the repository. */
  datatype RepoCall =
    | Save(tutorial: Tutorial)
    | Update(tutorial: Tutorial)
    | FindById(id: int)
    | DeleteById(id: int)
    | DeleteAll
    | Query(query: ListQuery)

  /** The statement of findByTitleContaining(title, orderBy, limit): the
      title query with its clauses, one text argument, the title between two
      `%`, and no clauses at all when both options are null. */
  function TitleQuery(title: string, orderBy: Option<string>, limit: Option<int32>): (st: Statement)
    ensures StartsWith(st.sql, SelectByTitle)
    ensures st.args == [TextArg("%" + title + "%")]
    ensures orderBy.None? && limit.None? ==> st.sql == SelectByTitle
  {
    Statement(SelectSql(SelectByTitle, orderBy, limit), [TextArg(LikePattern(title))])
  }

  /** The statement each list query sends: the unordered base for findAll and
      findByPublished, the ordered base extended by clauses for the others;
      only the filters bind a placeholder. */
  function StatementOf(q: ListQuery): (st: Statement)
    ensures q.FindAll? ==> st == Statement(SelectAllUnordered, [])
    ensures q.FindAllBy? ==> StartsWith(st.sql, SelectAll) && st.args == []
    ensures q.FindByPublished? ==> st == Statement(SelectByPublished, [BoolArg(q.published)])
    ensures q.FindByTitle? ==> st == Statement(SelectByTitle, [TextArg("%" + q.title + "%")])
    ensures q.FindByTitleBy? ==> StartsWith(st.sql, SelectByTitle) && st.args == [TextArg("%" + q.title + "%")]
  {
    match q
    case FindAll => Statement(SelectAllUnordered, [])
    case FindAllBy(orderBy, limit) => Statement(SelectSql(SelectAll, orderBy, limit), [])
    case FindByPublished(published) => Statement(SelectByPublished, [BoolArg(published)])
    case FindByTitle(title) => TitleQuery(title, None, None)
    case FindByTitleBy(title, orderBy, limit) => TitleQuery(title, orderBy, limit)
  }

  /** The statement of findByTitleContaining(title, orderBy, limit), built
      step by step; the one-argument overload delegates here with two nulls. */
  method TitleStatement(title: string, orderBy: Option<string>, limit: Option<int32>)
    returns (st: Statement)
    ensures st == StatementOf(FindByTitleBy(title, orderBy, limit))
  {
    var sql := BuildSelect(SelectByTitle, orderBy, limit);
    st := Statement(sql, [TextArg("%" + title + "%")]);
  }

  /** Every statement of a ListQuery reads back as its base query followed
      by the effective clauses, with an allowed ORDER BY column only; the
      title filter is bound as a contains-pattern and the flag as itself. */
  lemma StatementClauses(q: ListQuery)
    ensures q.FindAllBy? ==>
      ParseSelect(SelectAll, StatementOf(q).sql)
        == Some(Clauses(EffectiveOrder(q.orderBy), EffectiveLimit(q.limit)))
    ensures q.FindByTitleBy? ==>
      && ParseSelect(SelectByTitle, StatementOf(q).sql)
           == Some(Clauses(EffectiveOrder(q.orderBy), EffectiveLimit(q.limit)))
      && StatementOf(q).args == [TextArg("%" + q.title + "%")]
    ensures q.FindByTitle? ==>
      StatementOf(q) == Statement(SelectByTitle, [TextArg("%" + q.title + "%")])
    ensures q.FindByPublished? ==> StatementOf(q).args == [BoolArg(q.published)]
  {
    match q
    case FindAllBy(orderBy, limit) =>
      SelectSqlRoundTrip(SelectAll, orderBy, limit);
    case FindByTitleBy(title, orderBy, limit) =>
      SelectSqlRoundTrip(SelectByTitle, orderBy, limit);
    case FindByTitle(title) =>
      assert SelectSql(SelectByTitle, None, None) == SelectByTitle;
    case _ =>
  }

  class TutorialRepository {
    /** The table: each row under its own id. */
    var rows: map<int, Tutorial>
    /** The id the next insert receives (the table's auto-increment counter). */
    var nextId: int
    /** Every call made on this repository, oldest first. */
    ghost var log: seq<RepoCall>

    ghost predicate Valid()
      reads this
    {
      && nextId > 0
      && forall k :: k in rows ==> rows[k].id == k && 0 < k < nextId
    }

    constructor ()
      ensures Valid() && rows == map[] && nextId == 1 && log == []
    {
      rows := map[];
      nextId := 1;
      log := [];
    }

    /** INSERT: a new row with the next id and the entity's title,
        description and flag (its own id is not written); one row affected. */
    method Save(t: Tutorial) returns (count: int)
      requires Valid()
      modifies this
      ensures Valid()
      ensures old(nextId) !in old(rows)
      ensures rows == old(rows)[old(nextId) := t.(id := old(nextId))]
      ensures nextId > old(nextId)
      ensures count == 1
      ensures log == old(log) + [RepoCall.Save(t)]
    {
      var id := nextId;
      rows := rows[id := Tutorial(id, t.title, t.description, t.published)];
      nextId := nextId + 1;
      count := 1;
      log := log + [RepoCall.Save(t)];
    }

    /** UPDATE ... WHERE id=?: overwrites title, description and flag of the
        row with the entity's id; no row with that id is not an error, it
        affects zero rows. */
    method Update(t: Tutorial) returns (count: int)
      requires Valid()
      modifies this
      ensures Valid() && nextId == old(nextId)
      ensures t.id in old(rows) ==> rows == old(rows)[t.id := t] && count == 1
      ensures t.id !in old(rows) ==> rows == old(rows) && count == 0
      ensures log == old(log) + [RepoCall.Update(t)]
    {
      if t.id in rows {
        rows := rows[t.id := Tutorial(t.id, t.title, t.description, t.published)];
        count := 1;
      } else {
        count := 0;
      }
      log := log + [RepoCall.Update(t)];
    }

    /** queryForObject by id: the row, or None (Java's null) when no row has
        that id. JdbcTemplate reports a wrong result size for zero rows and
        for more than one, and both become null; a map keyed by the primary
        key never holds two rows for one id, so only the zero-row case
        arises here. */
    method FindById(id: int) returns (found: Option<Tutorial>)
      requires Valid()
      modifies this`log
      ensures found.Some? <==> id in rows
      ensures found.Some? ==> found.value == rows[id] && found.value.id == id
      ensures log == old(log) + [RepoCall.FindById(id)]
    {
      if id in rows {
        found := Some(rows[id]);
      } else {
        found := None;
      }
      log := log + [RepoCall.FindById(id)];
    }

    /** DELETE ... WHERE id=?: removes that row if there is one. */
    method DeleteById(id: int) returns (count: int)
      requires Valid()
      modifies this
      ensures Valid() && nextId == old(nextId)
      ensures rows == old(rows) - {id}
      ensures count == if id in old(rows) then 1 else 0
      ensures log == old(log) + [RepoCall.DeleteById(id)]
    {
      count := if id in rows then 1 else 0;
      rows := rows - {id};
      log := log + [RepoCall.DeleteById(id)];
    }

    /** DELETE from tutorials: removes every row; the counter is kept. */
    method DeleteAll() returns (count: int)
      requires Valid()
      modifies this
      ensures Valid() && nextId == old(nextId)
      ensures rows == map[]
      ensures count == |old(rows)|
      ensures log == old(log) + [RepoCall.DeleteAll]
    {
      count := |rows|;
      rows := map[];
      log := log + [RepoCall.DeleteAll];
    }

    /** findAll(): the unordered, unlimited query. */
    method FindAllRows() returns (st: Statement)
      requires Valid()
      modifies this`log
      ensures st == StatementOf(FindAll) && st == Statement("SELECT * FROM tutorials", [])
      ensures log == old(log) + [Query(FindAll)]
    {
      st := Statement(SelectAllUnordered, []);
      log := log + [Query(FindAll)];
    }

    /** findAll(orderBy, limit). */
    method FindAllOrdered(orderBy: Option<string>, limit: Option<int32>) returns (st: Statement)
      requires Valid()
      modifies this`log
      ensures st == StatementOf(FindAllBy(orderBy, limit))
      ensures log == old(log) + [Query(FindAllBy(orderBy, limit))]
    {
      var sql := BuildSelect(SelectAll, orderBy, limit);
      st := Statement(sql, []);
      log := log + [Query(FindAllBy(orderBy, limit))];
    }

    /** findByPublished(published). */
    method FindPublished(published: bool) returns (st: Statement)
      requires Valid()
      modifies this`log
      ensures st == StatementOf(FindByPublished(published))
      ensures log == old(log) + [Query(FindByPublished(published))]
    {
      st := Statement(SelectByPublished, [BoolArg(published)]);
      log := log + [Query(FindByPublished(published))];
    }

    /** findByTitleContaining(title): the three-argument form with two nulls. */
    method FindByTitleContaining(title: string) returns (st: Statement)
      requires Valid()
      modifies this`log
      ensures st == StatementOf(FindByTitle(title))
      ensures log == old(log) + [Query(FindByTitle(title))]
    {
      st := TitleStatement(title, None, None);
      log := log + [Query(FindByTitle(title))];
    }

    /** findByTitleContaining(title, orderBy, limit). */
    method FindByTitleContainingOrdered(title: string, orderBy: Option<string>, limit: Option<int32>)
      returns (st: Statement)
      requires Valid()
      modifies this`log
      ensures st == StatementOf(FindByTitleBy(title, orderBy, limit))
      ensures log == old(log) + [Query(FindByTitleBy(title, orderBy, limit))]
    {
      st := TitleStatement(title, orderBy, limit);
      log := log + [Query(FindByTitleBy(title, orderBy, limit))];
    }
  }
}
