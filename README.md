# Tutorial CRUD service: a verified model of its decision logic

The system is a Spring REST service over one table of tutorials
(`id`, `title`, `description`, `published`). It has three layers: a JDBC
repository that builds SQL text, a service that picks the repository call and
runs create/update/delete, and a controller that maps service results to HTTP
status codes and bodies. This project models the decision logic of each layer
in Dafny and proves what each one promises.

- `model.dfy` (module `Model`): the `Tutorial` record, `Option` (None is
  Java's null) and `int32` (Java's `int`, the type of the `limit` parameter).
- `decimal.dfy` (module `Decimal`): the decimal text Java writes for an
  `Integer` or `long` in a string concatenation, and a parser that reads it back.
- `query.dfy` (module `Query`): the SELECT text of the ordered and limited
  queries. `BuildSelect` builds it step by step, as the repository does.
  `SelectSql` is the function that specifies it. `ParseSelect` is an
  independent reader of the clauses after the base query. The round-trip lemma
  connects writer and reader. The safety lemma follows from it: only one of the
  four allowed column names can reach the text after `ORDER BY`. The module
  also defines the LIKE pattern of the title filter and a LIKE matcher.
- `repository.dfy` (module `Repository`): class `TutorialRepository`. Its
  in-memory `rows` map stands for the table, and it keeps a ghost `log` of
  every call made on it. The list queries return the statement they would hand
  to `JdbcTemplate`: the SQL text and the bound values.
- `service.dfy` (module `Service`): `Dispatch`, the choice of list query
  (`LegacyDispatch` for the older title-only service), and class
  `TutorialService`. Its contracts say which repository calls are issued, in
  which order, and what the table holds afterwards.
- `controller.dfy` (module `Controller`): one function per handler, from
  the service outcome (a value, or a thrown exception) to the reply. `TableStatus`
  encodes, as an independent reference, the statuses each handler's Javadoc
  in `TutorialController.java` documents (200, 201, 204, 404, 500), with a
  failure entry only where the handler catches the exception; a lemma proves
  that every handler follows it.

Behaviour worth knowing that the proofs make explicit:

- A null or empty `orderBy` adds no ORDER BY clause at all. Only a non-empty
  value that is not one of the four names falls back to `id`. A reading of
  the rule in which null and empty also fall back to `id` does not match the
  code, and the model follows the code.
- `findAll()` sends `SELECT * FROM tutorials`, but `findAll(orderBy, limit)`
  is built from `SELECT * from tutorials`. `DispatchMatchesOrderedOverload`
  proves that the two statements differ only in letter case.
- The title filter is not escaped. `UnderscoreIsWildcard` shows that the
  filter `_` matches the title `ab`. Contains semantics holds for filters with
  no `%` and no `_` (`LikePatternMeansContains`).
- The entity returned by create is the one the service built, with its id
  unset. The stored row gets the table's next id, and the service does not
  return it. So "create, then fetch by the returned id" cannot be stated.
  `CreateTutorial` states where the row is stored instead.
- The two 404 messages differ in case: update says `Cannot find tutorial`,
  delete says `Cannot find Tutorial`.

## Model

| member | source | states |
|---|---|---|
| `Decimal.NatToString` | src/main/java/com/giuseppe/spring/jdbc/mysql/repository/JdbcTutorialRepository.java:62 | the text written for a non-negative limit is a non-empty run of digits with no leading zero |
| `Decimal.IntToString` | src/main/java/com/giuseppe/spring/jdbc/mysql/controller/TutorialController.java:117 | the text of an id is non-empty and starts with a minus sign exactly when the id is negative |
| `Decimal.ParseNatToString` | src/main/java/com/giuseppe/spring/jdbc/mysql/repository/JdbcTutorialRepository.java:62 | the digits written after LIMIT read back as the limit value |
| `Decimal.ParseIntToString` | src/main/java/com/giuseppe/spring/jdbc/mysql/controller/TutorialController.java:117 | the text of any long id, negative ones included, reads back as that id |
| `Decimal.IntToStringInjective` | src/main/java/com/giuseppe/spring/jdbc/mysql/controller/TutorialController.java:137 | different ids are written as different texts |
| `Query.CharEqualsIgnoreCase` | src/main/java/com/giuseppe/spring/jdbc/mysql/repository/JdbcTutorialRepository.java:53-56 | two characters are equal ignoring case exactly when they are equal once lowered (the upper-case and lower-of-upper tests add nothing on ASCII) |
| `Query.EqualsIgnoreCase` | src/main/java/com/giuseppe/spring/jdbc/mysql/repository/JdbcTutorialRepository.java:87-90 | two strings are equal ignoring case exactly when their lowered forms are equal: same length, every position equal once lowered |
| `Query.IsSortColumn` | src/main/java/com/giuseppe/spring/jdbc/mysql/repository/JdbcTutorialRepository.java:53-56 | a value passes the whitelist exactly when its lowered form is one of `id`, `title`, `description`, `published` |
| `Query.LettersMatchOnlyLetters` | src/main/java/com/giuseppe/spring/jdbc/mysql/repository/JdbcTutorialRepository.java:53-56 | a string equal, ignoring case, to a word of letters is made of letters only |
| `Query.SortColumnIsLetters` | src/main/java/com/giuseppe/spring/jdbc/mysql/repository/JdbcTutorialRepository.java:53-56 | every string the whitelist accepts is made of letters only |
| `Query.EffectiveOrder` | src/main/java/com/giuseppe/spring/jdbc/mysql/repository/JdbcTutorialRepository.java:51-59 | no column when orderBy is null or empty; an allowed name kept verbatim with the caller's case; any other non-empty value becomes `id`; the result is always allowed and made of letters |
| `Query.EffectiveLimit` | src/main/java/com/giuseppe/spring/jdbc/mysql/repository/JdbcTutorialRepository.java:61-63 | a bound exactly when the limit is non-null and positive, and the bound is the limit itself |
| `Query.BuildSelect` | src/main/java/com/giuseppe/spring/jdbc/mysql/repository/JdbcTutorialRepository.java:50-63 | the step-by-step builder produces exactly the text SelectSql specifies |
| `Query.SelectSql` | src/main/java/com/giuseppe/spring/jdbc/mysql/repository/JdbcTutorialRepository.java:82-99 | the text starts with the base query; it is the base alone when orderBy is null or empty and the limit is null or not positive, and longer than the base exactly when one of them is set |
| `Query.SelectSqlRoundTrip` | src/main/java/com/giuseppe/spring/jdbc/mysql/repository/JdbcTutorialRepository.java:50-63 | the built text reads back as the base query, then the effective ORDER BY column, then the effective LIMIT bound |
| `Query.OnlySortColumnsReachSql` | src/main/java/com/giuseppe/spring/jdbc/mysql/repository/JdbcTutorialRepository.java:82-99 | for every orderBy and limit: the text starts with the base query; ORDER BY appears iff orderBy is non-empty and its column is one of id/title/description/published ignoring case; LIMIT appears iff the limit is positive, with that value |
| `Query.InjectionPayloadBecomesId` | src/main/java/com/giuseppe/spring/jdbc/mysql/repository/JdbcTutorialRepository.java:53-59 | an injection payload as orderBy yields exactly ` ORDER BY id` |
| `Query.MixedCaseColumnKept` | src/main/java/com/giuseppe/spring/jdbc/mysql/repository/JdbcTutorialRepository.java:53-63 | `TiTlE` is kept in its own case, and ORDER BY comes before LIMIT |
| `Query.LikePattern` | src/main/java/com/giuseppe/spring/jdbc/mysql/repository/JdbcTutorialRepository.java:104 | the bound value is the title with one `%` in front and one `%` behind, and nothing else |
| `Query.LikePatternMeansContains` | src/main/java/com/giuseppe/spring/jdbc/mysql/repository/JdbcTutorialRepository.java:104 | the bound pattern `%title%` matches a title iff the filter occurs in it as a substring (filters without wildcards) |
| `Query.UnderscoreIsWildcard` | src/main/java/com/giuseppe/spring/jdbc/mysql/repository/JdbcTutorialRepository.java:104 | the filter `_` matches `ab` although `ab` does not contain it |
| `Repository.TitleQuery` | src/main/java/com/giuseppe/spring/jdbc/mysql/repository/JdbcTutorialRepository.java:81-106 | the title statement starts with the LIKE base, binds exactly `"%" + title + "%"`, and is the bare LIKE base when orderBy and limit are null |
| `Repository.StatementOf` | src/main/java/com/giuseppe/spring/jdbc/mysql/repository/JdbcTutorialRepository.java:68-112 | findAll sends the unordered base with no argument; the ordered findAll starts with its base and binds nothing; findByPublished binds the flag; both title queries bind the contains-pattern, the one-argument one with no clause |
| `Repository.TitleStatement` | src/main/java/com/giuseppe/spring/jdbc/mysql/repository/JdbcTutorialRepository.java:81-106 | the title query is the LIKE base with the effective clauses, with `"%" + title + "%"` bound to its placeholder |
| `Repository.StatementClauses` | src/main/java/com/giuseppe/spring/jdbc/mysql/repository/JdbcTutorialRepository.java:74-112 | each list statement reads back as its base plus the effective clauses; the one-argument title query is exactly the LIKE base with the contains-pattern bound; the published query binds the flag |
| `Repository.TutorialRepository.Save` | src/main/java/com/giuseppe/spring/jdbc/mysql/repository/JdbcTutorialRepository.java:19-23 | one new row under a fresh id with the entity's title, description and flag; one row affected |
| `Repository.TutorialRepository.Update` | src/main/java/com/giuseppe/spring/jdbc/mysql/repository/JdbcTutorialRepository.java:25-29 | the row with the entity's id is overwritten (1 row), or nothing changes (0 rows) |
| `Repository.TutorialRepository.FindById` | src/main/java/com/giuseppe/spring/jdbc/mysql/repository/JdbcTutorialRepository.java:31-41 | the row with that id, or None instead of a fault when there is no such row; the table is unchanged |
| `Repository.TutorialRepository.DeleteById` | src/main/java/com/giuseppe/spring/jdbc/mysql/repository/JdbcTutorialRepository.java:43-46 | only that row is removed; the count says whether it existed |
| `Repository.TutorialRepository.DeleteAll` | src/main/java/com/giuseppe/spring/jdbc/mysql/repository/JdbcTutorialRepository.java:114-117 | the table is empty; the count is the number of rows there were |
| `Repository.TutorialRepository.FindAllRows` | src/main/java/com/giuseppe/spring/jdbc/mysql/repository/JdbcTutorialRepository.java:68-72 | sends `SELECT * FROM tutorials` with no bound value |
| `Repository.TutorialRepository.FindAllOrdered` | src/main/java/com/giuseppe/spring/jdbc/mysql/repository/JdbcTutorialRepository.java:48-65 | sends the ordered, limited text over `SELECT * from tutorials` |
| `Repository.TutorialRepository.FindPublished` | src/main/java/com/giuseppe/spring/jdbc/mysql/repository/JdbcTutorialRepository.java:74-78 | sends the published query with the flag bound |
| `Repository.TutorialRepository.FindByTitleContaining` | src/main/java/com/giuseppe/spring/jdbc/mysql/repository/JdbcTutorialRepository.java:108-112 | sends what the three-argument form sends for two nulls |
| `Repository.TutorialRepository.FindByTitleContainingOrdered` | src/main/java/com/giuseppe/spring/jdbc/mysql/repository/JdbcTutorialRepository.java:80-106 | sends the ordered, limited LIKE query with the contains-pattern bound |
| `Service.Dispatch` | src/main/java/com/giuseppe/spring/jdbc/mysql/service/impl/TutorialServiceImpl.java:17-33 | findAll() iff all three are null; findAll(orderBy, limit) iff title is null and orderBy or limit is not; the one-argument title query iff title only; the three-argument one otherwise; arguments passed unchanged |
| `Service.LegacyDispatch` | src/main/java/com/giuseppe/spring/jdbc/mysql/service/TutorialServiceImpl.java:16-23 | findAll() for a null title, findByTitleContaining(title) otherwise |
| `Service.LegacyIsCurrentWithoutClauses` | src/main/java/com/giuseppe/spring/jdbc/mysql/service/TutorialServiceImpl.java:17-23 | the older dispatch equals the current one with orderBy and limit null |
| `Service.DispatchMatchesOrderedOverload` | src/main/java/com/giuseppe/spring/jdbc/mysql/service/impl/TutorialServiceImpl.java:19-32 | whichever overload is chosen, the statement sent equals, up to letter case, the one the orderBy/limit overload sends, with the same bound values |
| `Service.TutorialService.GetAllTutorials` | src/main/java/com/giuseppe/spring/jdbc/mysql/service/impl/TutorialServiceImpl.java:17-33 | issues exactly the one query Dispatch selects and returns its statement |
| `Service.TutorialService.GetAllTutorialsByTitle` | src/main/java/com/giuseppe/spring/jdbc/mysql/service/TutorialServiceImpl.java:16-23 | issues exactly the one query LegacyDispatch selects |
| `Service.TutorialService.GetTutorialById` | src/main/java/com/giuseppe/spring/jdbc/mysql/service/impl/TutorialServiceImpl.java:36-39 | one findById; the row or None |
| `Service.TutorialService.CreateTutorial` | src/main/java/com/giuseppe/spring/jdbc/mysql/service/impl/TutorialServiceImpl.java:41-46 | returns the input's title and description with published false and id unset, whatever the input's id and flag; save is called once with that same entity; the new row is stored under the next id |
| `Service.TutorialService.UpdateTutorial` | src/main/java/com/giuseppe/spring/jdbc/mysql/service/impl/TutorialServiceImpl.java:48-60 | a missing id gives None after a findById alone and no row changes; otherwise the result has the path id and the input's three fields, is passed to update, and replaces that row |
| `Service.TutorialService.DeleteTutorial` | src/main/java/com/giuseppe/spring/jdbc/mysql/service/impl/TutorialServiceImpl.java:62-70 | a missing id gives None and issues no delete; otherwise deleteById(id) is issued, only that row goes, and the row as it was before is returned |
| `Service.TutorialService.DeleteAllTutorials` | src/main/java/com/giuseppe/spring/jdbc/mysql/service/impl/TutorialServiceImpl.java:72-76 | always issues deleteAll, returns None, and leaves the table empty |
| `Service.TutorialService.FindByPublished` | src/main/java/com/giuseppe/spring/jdbc/mysql/service/impl/TutorialServiceImpl.java:78-81 | always issues findByPublished(true) |
| `Controller.GetAllTutorials` | src/main/java/com/giuseppe/spring/jdbc/mysql/controller/TutorialController.java:56-66 | 204 with no body exactly for an empty list, 200 with the list otherwise; a fault escapes |
| `Controller.GetTutorialById` | src/main/java/com/giuseppe/spring/jdbc/mysql/controller/TutorialController.java:75-83 | 200 with the entity when found, 404 with no body otherwise; a fault escapes |
| `Controller.CreateTutorial` | src/main/java/com/giuseppe/spring/jdbc/mysql/controller/TutorialController.java:93-101 | never lets a fault escape; 201 with the service's entity, or 500 with no body |
| `Controller.UpdateTutorial` | src/main/java/com/giuseppe/spring/jdbc/mysql/controller/TutorialController.java:111-120 | 200 with the updated entity, or 404 with `Cannot find tutorial with id=` and the id; a fault escapes |
| `Controller.DeleteTutorial` | src/main/java/com/giuseppe/spring/jdbc/mysql/controller/TutorialController.java:130-142 | always a text body: 200 `Tutorial was deleted successfully.`, 404 `Cannot find Tutorial with id=` and the id, or 500 `Cannot delete tutorial.` |
| `Controller.DeleteAllTutorials` | src/main/java/com/giuseppe/spring/jdbc/mysql/controller/TutorialController.java:150-158 | 200 `All tutorials were deleted successfully.` or 500 `Cannot delete tutorials.` |
| `Controller.FindByPublished` | src/main/java/com/giuseppe/spring/jdbc/mysql/controller/TutorialController.java:166-177 | never lets a fault escape; 204 for an empty list, 200 with the list, 500 with no body on a fault |
| `Controller.HandlersFollowStatusTable` | src/main/java/com/giuseppe/spring/jdbc/mysql/controller/TutorialController.java:56-177 | every handler's status is the one `TableStatus` gives, from the statuses its Javadoc documents, for the outcome's kind (success, empty, not found, failure), and a fault escapes exactly where the handler has no catch block (create, delete by id, delete all and find published catch it and answer 500) |
| `Controller.NotFoundMessagesNameTheId` | src/main/java/com/giuseppe/spring/jdbc/mysql/controller/TutorialController.java:113-141 | both 404 messages are their fixed prefix followed by text that reads back as the requested id |
| `Controller.NotFoundMessagesDistinguishIds` | src/main/java/com/giuseppe/spring/jdbc/mysql/controller/TutorialController.java:113-141 | two different ids never get the same 404 reply |
| `Controller.NotFoundMessagesDifferInCase` | src/main/java/com/giuseppe/spring/jdbc/mysql/controller/TutorialController.java:113-141 | for the same id, the update and delete 404 messages differ, but only in letter case |

## Left out

- Query execution by `JdbcTemplate` and row mapping by `BeanPropertyRowMapper` are library code. The list queries stop at the statement they send. Nothing states which rows come back, in which order, or how many.
- `Repository.TutorialRepository.FindAllRows`, `FindAllOrdered`, `FindPublished`, `FindByTitleContaining`, `FindByTitleContainingOrdered`: each returns its statement, not the `List<Tutorial>` the source returns. The same goes for `Service.TutorialService.GetAllTutorials`, `GetAllTutorialsByTitle` and `FindByPublished`.
- `Query.EqualsIgnoreCase` applies Java's per-character test to the ASCII case mappings only. Java also folds some non-ASCII letters. For example, it treats U+0131 (dotless i) as equal to `i`, so `tıtle` would pass the whitelist and reach the SQL text. The model does not cover that.
- `Query.LikePatternMeansContains` holds only for filters without `%` and `_`, and it uses a binary collation. The table's real collation may ignore case. MySQL's backslash escape in LIKE is not modelled.
- Java null for `title` and `description` inside a Tutorial is not modelled: they are plain strings. Calling `findByTitleContaining(null)` directly would bind `%null%`; no caller does this.
- Ids are unbounded integers, not Java `long`, so counter overflow is out of scope. The text of a negative id follows Java's rules, including for the smallest long.
- `createTutorial` never reads the generated key. The id of a freshly constructed Tutorial is modelled as 0 (`UnsetId`), the default of a Java `long` field. The Tutorial class is not part of this model.
- Database faults are not raised by the in-memory repository: connectivity loss and constraint violations. The controller takes them as the `Threw` outcome. For handlers without a catch, it passes them on as `Propagated`. What Spring then answers is out of scope. More than one row for an id is not such a fault. `findById` catches the wrong-result-size exception that JdbcTemplate raises for zero rows and for several rows alike, and returns null in both cases. The map keyed by the primary key cannot hold two rows for one id anyway.
- The controller's list handler forwards `title`, `orderBy` and `limit` to the service unchanged. No member models that one call on its own. `Service.Dispatch` receives them as given.
- The read-then-write race between `findById` and `update`/`deleteById` depends on concurrency and the database's transactions. Every call here runs alone.
- In the older `service/TutorialServiceImpl.java`, `getTutorialById`, `createTutorial`, `updateTutorial`, `deleteTutorial`, `deleteAllTutorials` and `findByPublished` (lines 25-70) are the same statements as in `service/impl/TutorialServiceImpl.java` (lines 36-81). The members of `Service.TutorialService` model both versions.
- Spring annotations, dependency injection, HTTP routing, parsing of request parameters and JSON serialisation are out of scope.
