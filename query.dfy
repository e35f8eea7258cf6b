/** The SELECT text that JdbcTutorialRepository builds for its ordered and
    limited queries: the order-by whitelist with its fallback column, the
    limit rule, and the LIKE pattern of the title filter. A parser of the
    clauses after the base query is the independent reading of that text. */
module Query {
  import opened Model
  import opened Decimal

  /** Base of findAll(orderBy, limit). */
  const SelectAll: string := "SELECT * from tutorials"
  /** Text of findAll() (the keyword FROM is in capitals here only). */
  const SelectAllUnordered: string := "SELECT * FROM tutorials"
  /** Base of findByTitleContaining; its one placeholder is the LIKE pattern. */
  const SelectByTitle: string := "SELECT * from tutorials WHERE title LIKE ?"
  /** Text of findByPublished; its one placeholder is the flag. */
  const SelectByPublished: string := "SELECT * from tutorials WHERE published=?"

  const OrderByKeyword: string := " ORDER BY "
  const LimitKeyword: string := " LIMIT "
  /** The column used when the requested one is not allowed. */
  const FallbackColumn: string := "id"

  // ---------------------------------------------------------------------
  // String.equalsIgnoreCase, on the ASCII letters

  function ToUpperAscii(c: char): char {
    if 'a' <= c <= 'z' then (c as int - 32) as char else c
  }

  function ToLowerAscii(c: char): char {
    if 'A' <= c <= 'Z' then (c as int + 32) as char else c
  }

  /** A string with every ASCII capital lowered. */
  function Lowered(s: string): (r: string)
    ensures |r| == |s| && forall i :: 0 <= i < |s| ==> r[i] == ToLowerAscii(s[i])
  {
    seq(|s|, i requires 0 <= i < |s| => ToLowerAscii(s[i]))
  }

  /** The per-character test of String.equalsIgnoreCase: equal, or equal in
      upper case, or equal in lower case after upper-casing. On the ASCII
      case maps this is the same as being equal once lowered. */
  predicate CharEqualsIgnoreCase(a: char, b: char): (r: bool)
    ensures r <==> ToLowerAscii(a) == ToLowerAscii(b)
  {
    || a == b
    || ToUpperAscii(a) == ToUpperAscii(b)
    || ToLowerAscii(ToUpperAscii(a)) == ToLowerAscii(ToUpperAscii(b))
  }

  /** String.equalsIgnoreCase: same length, and equal character by character
      ignoring case; that is, equal once both are lowered. */
  predicate EqualsIgnoreCase(a: string, b: string): (r: bool)
    ensures r <==> Lowered(a) == Lowered(b)
  {
    assert Lowered(a) == Lowered(b) ==> forall i :: 0 <= i < |a| ==> Lowered(a)[i] == Lowered(b)[i];
    |a| == |b| && forall i :: 0 <= i < |a| ==> CharEqualsIgnoreCase(a[i], b[i])
  }

  /** The four column names an ORDER BY may use, in any letter case: exactly
      the strings whose lowered form is one of the four names. */
  predicate IsSortColumn(s: string): (r: bool)
    ensures r <==> Lowered(s) in ["id", "title", "description", "published"]
  {
    assert Lowered("id") == "id";
    assert Lowered("title") == "title";
    assert Lowered("description") == "description";
    assert Lowered("published") == "published";
    || EqualsIgnoreCase(s, "id")
    || EqualsIgnoreCase(s, "title")
    || EqualsIgnoreCase(s, "description")
    || EqualsIgnoreCase(s, "published")
  }

  predicate IsAsciiLetter(c: char) {
    'a' <= c <= 'z' || 'A' <= c <= 'Z'
  }

  predicate IsLetters(s: string) {
    forall i :: 0 <= i < |s| ==> IsAsciiLetter(s[i])
  }

  /** A string equal, ignoring case, to a word of letters is itself made of
      letters: no quote, blank, semicolon or comment marker can pass. */
  lemma LettersMatchOnlyLetters(s: string, w: string)
    requires IsLetters(w) && EqualsIgnoreCase(s, w)
    ensures IsLetters(s)
  {
  }

  lemma SortColumnIsLetters(s: string)
    requires IsSortColumn(s)
    ensures IsLetters(s)
  {
    if EqualsIgnoreCase(s, "id") {
      LettersMatchOnlyLetters(s, "id");
    } else if EqualsIgnoreCase(s, "title") {
      LettersMatchOnlyLetters(s, "title");
    } else if EqualsIgnoreCase(s, "description") {
      LettersMatchOnlyLetters(s, "description");
    } else {
      LettersMatchOnlyLetters(s, "published");
    }
  }

  // ---------------------------------------------------------------------
  // The clauses

  /** The column that ends up after ORDER BY, or None when no ORDER BY is
      written: a null or empty request adds none, an allowed name is kept
      with the caller's letter case, anything else becomes `id`. */
  function EffectiveOrder(orderBy: Option<string>): (col: Option<string>)
    ensures col.None? <==> (orderBy.None? || orderBy.value == "")
    ensures col.Some? ==> IsSortColumn(col.value) && IsLetters(col.value)
    ensures orderBy.Some? && IsSortColumn(orderBy.value) ==> col == orderBy
    ensures orderBy.Some? && orderBy.value != "" && !IsSortColumn(orderBy.value) ==>
              col == Some(FallbackColumn)
  {
    if orderBy.None? || orderBy.value == "" then None
    else if IsSortColumn(orderBy.value) then
      SortColumnIsLetters(orderBy.value);
      orderBy
    else
      assert IsSortColumn(FallbackColumn) by {
        assert EqualsIgnoreCase(FallbackColumn, "id");
      }
      Some(FallbackColumn)
  }

  /** The row bound that ends up after LIMIT: only a present, positive value. */
  function EffectiveLimit(limit: Option<int32>): (n: Option<nat>)
    ensures n.Some? <==> limit.Some? && limit.value > 0
    ensures n.Some? ==> n.value == limit.value as int && n.value > 0
  {
    if limit.Some? && limit.value > 0 then Some(limit.value as int) else None
  }

  function OrderClause(col: Option<string>): string {
    match col
    case None => ""
    case Some(c) => OrderByKeyword + c
  }

  function LimitClause(n: Option<nat>): string {
    match n
    case None => ""
    case Some(v) => LimitKeyword + NatToString(v)
  }

  /** The SQL text of an ordered, limited query over `base`. */
  function SelectSql(base: string, orderBy: Option<string>, limit: Option<int32>): (sql: string)
    ensures StartsWith(sql, base)
    ensures (orderBy.None? || orderBy.value == "") && (limit.None? || limit.value <= 0) ==> sql == base
    ensures |sql| > |base| <==> (orderBy.Some? && orderBy.value != "") || (limit.Some? && limit.value > 0)
  {
    base + OrderClause(EffectiveOrder(orderBy)) + LimitClause(EffectiveLimit(limit))
  }

  /** The query is built as JdbcTutorialRepository does it: start from the
      base, append the ORDER BY clause after overwriting a disallowed column
      with `id`, then append the LIMIT clause. */
  method BuildSelect(base: string, orderBy: Option<string>, limit: Option<int32>)
    returns (sql: string)
    ensures sql == SelectSql(base, orderBy, limit)
  {
    ghost var order := EffectiveOrder(orderBy);
    ghost var bound := EffectiveLimit(limit);
    sql := base;
    if orderBy.Some? && orderBy.value != "" {
      var column := orderBy.value;
      if !IsSortColumn(column) {
        column := FallbackColumn;
      }
      assert order == Some(column);
      assert OrderClause(order) == OrderByKeyword + column;
      sql := sql + (OrderByKeyword + column);
    }
    assert sql == base + OrderClause(order);
    if limit.Some? && limit.value > 0 {
      assert LimitClause(bound) == LimitKeyword + NatToString(limit.value as int);
      sql := sql + (LimitKeyword + NatToString(limit.value as int));
    }
    assert sql == base + OrderClause(order) + LimitClause(bound);
  }

  // ---------------------------------------------------------------------
  // Reading the clauses back from the text

  /** What the text after the base query says: the ORDER BY column, if any,
      and the LIMIT bound, if any. */
  datatype Clauses = Clauses(order: Option<string>, limit: Option<nat>)

  predicate StartsWith(s: string, prefix: string) {
    |prefix| <= |s| && s[..|prefix|] == prefix
  }

  /** The longest prefix of `s` made of letters. */
  function LeadingLetters(s: string): (w: string)
    ensures |w| <= |s| && w == s[..|w|] && IsLetters(w)
    ensures |w| < |s| ==> !IsAsciiLetter(s[|w|])
  {
    if s != [] && IsAsciiLetter(s[0]) then [s[0]] + LeadingLetters(s[1..]) else []
  }

  /** Reads an optional ` LIMIT <digits>` that must end the text. */
  function ParseLimitClause(s: string): Option<Option<nat>> {
    if s == [] then Some(None)
    else if StartsWith(s, LimitKeyword) then
      match ParseNat(s[|LimitKeyword|..])
      case Some(n) => Some(Some(n))
      case None => None
    else None
  }

  /** Reads an optional ` ORDER BY <column>` followed by an optional LIMIT. */
  function ParseClauses(s: string): Option<Clauses> {
    if StartsWith(s, OrderByKeyword) then
      var rest := s[|OrderByKeyword|..];
      var col := LeadingLetters(rest);
      if col == [] then None
      else
        match ParseLimitClause(rest[|col|..])
        case Some(l) => Some(Clauses(Some(col), l))
        case None => None
    else
      match ParseLimitClause(s)
      case Some(l) => Some(Clauses(None, l))
      case None => None
  }

  /** Reads a whole query text: the base, then the clauses. */
  function ParseSelect(base: string, sql: string): Option<Clauses> {
    if StartsWith(sql, base) then ParseClauses(sql[|base|..]) else None
  }

  lemma {:induction false} LeadingLettersOfWord(col: string, rest: string)
    requires IsLetters(col)
    requires rest == [] || !IsAsciiLetter(rest[0])
    ensures LeadingLetters(col + rest) == col
    decreases |col|
  {
    if col != [] {
      assert (col + rest)[1..] == col[1..] + rest;
      LeadingLettersOfWord(col[1..], rest);
    } else {
      assert col + rest == rest;
    }
  }

  lemma LimitClauseRoundTrip(n: Option<nat>)
    ensures ParseLimitClause(LimitClause(n)) == Some(n)
    ensures !StartsWith(LimitClause(n), OrderByKeyword)
    ensures LimitClause(n) == [] || LimitClause(n)[0] == ' '
  {
    if n.Some? {
      var s := LimitClause(n);
      assert s[|LimitKeyword|..] == NatToString(n.value);
      ParseNatToString(n.value);
      assert s[1] == 'L';
    }
  }

  lemma ClausesRoundTrip(col: Option<string>, n: Option<nat>)
    requires col.Some? ==> col.value != [] && IsLetters(col.value)
    ensures ParseClauses(OrderClause(col) + LimitClause(n)) == Some(Clauses(col, n))
  {
    var lc := LimitClause(n);
    LimitClauseRoundTrip(n);
    if col.Some? {
      var c := col.value;
      var s := OrderByKeyword + (c + lc);
      assert OrderClause(col) + lc == s;
      assert StartsWith(s, OrderByKeyword) by {
        assert s[..|OrderByKeyword|] == OrderByKeyword;
      }
      var rest := s[|OrderByKeyword|..];
      assert rest == c + lc;
      LeadingLettersOfWord(c, lc);
      assert rest[|c|..] == lc;
    } else {
      assert OrderClause(col) + lc == lc;
    }
  }

  /** Round trip: the text SelectSql writes reads back as the base query
      followed by exactly the effective ORDER BY column and LIMIT bound, in
      that order. */
  lemma SelectSqlRoundTrip(base: string, orderBy: Option<string>, limit: Option<int32>)
    ensures ParseSelect(base, SelectSql(base, orderBy, limit))
            == Some(Clauses(EffectiveOrder(orderBy), EffectiveLimit(limit)))
  {
    var order := EffectiveOrder(orderBy);
    var bound := EffectiveLimit(limit);
    var tail := OrderClause(order) + LimitClause(bound);
    var sql := base + tail;
    assert SelectSql(base, orderBy, limit) == sql;
    assert StartsWith(sql, base) by {
      assert sql[..|base|] == base;
    }
    assert sql[|base|..] == tail;
    ClausesRoundTrip(order, bound);
  }

  /** Safety of the order-by parameter: whatever the caller sends, injection
      payloads included, the text starts with the base query, and the only
      column that can appear after ORDER BY is one of the four allowed names
      (ignoring case), made of letters only. ORDER BY appears exactly when a
      non-empty orderBy was given, LIMIT exactly when the limit is positive,
      and the bound written is the limit itself. */
  lemma OnlySortColumnsReachSql(base: string, orderBy: Option<string>, limit: Option<int32>)
    ensures StartsWith(SelectSql(base, orderBy, limit), base)
    ensures var c := ParseSelect(base, SelectSql(base, orderBy, limit));
            && c.Some?
            && (c.value.order.Some? ==> IsSortColumn(c.value.order.value) && IsLetters(c.value.order.value))
            && (c.value.order.Some? <==> orderBy.Some? && orderBy.value != "")
            && (c.value.limit.Some? <==> limit.Some? && limit.value > 0)
            && (c.value.limit.Some? ==> c.value.limit.value == limit.value as int)
  {
    SelectSqlRoundTrip(base, orderBy, limit);
  }

  /** An injection payload in orderBy is replaced by `id`. */
  lemma InjectionPayloadBecomesId()
    ensures SelectSql(SelectAll, Some("title; DROP TABLE tutorials"), None) == SelectAll + " ORDER BY id"
  {
  }

  /** An allowed name keeps the caller's letter case; LIMIT follows ORDER BY. */
  lemma MixedCaseColumnKept()
    ensures SelectSql(SelectAll, Some("TiTlE"), Some(5)) == SelectAll + " ORDER BY TiTlE LIMIT 5"
  {
    assert Lowered("TiTlE") == "title";
    assert IsSortColumn("TiTlE");
    assert EffectiveOrder(Some("TiTlE")) == Some("TiTlE");
    assert NatToString(5) == "5";
    assert EffectiveLimit(Some(5)) == Some(5);
    assert OrderClause(Some("TiTlE")) == " ORDER BY TiTlE";
    assert LimitClause(Some(5)) == " LIMIT 5";
    assert " ORDER BY TiTlE" + " LIMIT 5" == " ORDER BY TiTlE LIMIT 5";
  }

  // ---------------------------------------------------------------------
  // The title filter

  /** The value bound to the LIKE placeholder of findByTitleContaining. */
  function LikePattern(title: string): (p: string)
    ensures |p| == |title| + 2 && p[0] == '%' && p[|p| - 1] == '%' && p[1..|p| - 1] == title
  {
    "%" + title + "%"
  }

  /** SQL LIKE with its two wildcards (`%` any run, `_` any one character)
      under a binary collation: every other character matches itself. */
  predicate Like(p: string, s: string)
    decreases |p| + |s|
  {
    if p == [] then s == []
    else if p[0] == '%' then Like(p[1..], s) || (s != [] && Like(p, s[1..]))
    else s != [] && (p[0] == '_' || p[0] == s[0]) && Like(p[1..], s[1..])
  }

  /** A title with neither wildcard in it. */
  predicate IsPlainText(t: string) {
    forall i :: 0 <= i < |t| ==> t[i] != '%' && t[i] != '_'
  }

  /** `t` occurs in `s` starting at position `i`. */
  predicate OccursAt(s: string, t: string, i: nat) {
    i + |t| <= |s| && s[i..i + |t|] == t
  }

  predicate Contains(s: string, t: string) {
    exists i: nat :: i <= |s| && OccursAt(s, t, i)
  }

  lemma {:induction false} PercentMatchesAll(s: string)
    ensures Like("%", s)
    decreases |s|
  {
    if s != [] {
      PercentMatchesAll(s[1..]);
    }
  }

  lemma {:induction false} PlainThenPercent(t: string, s: string)
    requires IsPlainText(t)
    ensures Like(t + "%", s) <==> |t| <= |s| && s[..|t|] == t
    decreases |t|
  {
    if t == [] {
      assert t + "%" == "%";
      PercentMatchesAll(s);
    } else {
      var p := t + "%";
      assert p[0] == t[0] && p[1..] == t[1..] + "%";
      if s != [] {
        PlainThenPercent(t[1..], s[1..]);
        if |t| <= |s| {
          assert s[..|t|] == [s[0]] + s[1..][..|t| - 1];
          assert t == [t[0]] + t[1..];
        }
      }
    }
  }

  lemma {:induction false} PercentThen(q: string, s: string)
    ensures Like("%" + q, s) <==> exists i :: 0 <= i <= |s| && Like(q, s[i..])
    decreases |s|
  {
    var p := "%" + q;
    assert p[0] == '%' && p[1..] == q;
    assert s[0..] == s;
    if s != [] {
      PercentThen(q, s[1..]);
      if Like(p, s) && !Like(q, s) {
        var j :| 0 <= j <= |s| - 1 && Like(q, s[1..][j..]);
        assert s[1..][j..] == s[j + 1..];
      }
      if i :| 0 <= i <= |s| && Like(q, s[i..]) {
        if i > 0 {
          assert s[1..][i - 1..] == s[i..];
        }
      }
    }
  }

  /** The LIKE pattern of a title without wildcards gives substring
      semantics: a row matches exactly when its title contains the filter. */
  lemma LikePatternMeansContains(title: string, s: string)
    requires IsPlainText(title)
    ensures Like(LikePattern(title), s) <==> Contains(s, title)
  {
    assert LikePattern(title) == "%" + (title + "%");
    PercentThen(title + "%", s);
    forall i: nat | i <= |s|
      ensures Like(title + "%", s[i..]) <==> OccursAt(s, title, i)
    {
      PlainThenPercent(title, s[i..]);
      if i + |title| <= |s| {
        assert s[i..][..|title|] == s[i..i + |title|];
      }
    }
  }

  /** The filter is not escaped: an underscore in it is a wildcard, so "_"
      matches the title "ab", which does not contain an underscore. */
  lemma UnderscoreIsWildcard()
    ensures Like(LikePattern("_"), "ab") && !Contains("ab", "_")
  {
    assert LikePattern("_") == "%_%";
    assert "%_%"[1..] == "_%" && "_%"[1..] == "%";
    PercentMatchesAll("ab"[1..]);
    forall i: nat | i <= 2 ensures !OccursAt("ab", "_", i) {
      if i + 1 <= 2 {
        assert "ab"[i..i + 1][0] == "ab"[i];
      }
    }
  }
}
