/** The query builder behind the event listing: the sort whitelist, the
    direction normalisation, the optional filters combined by AND, and the
    filter-then-page reading of a listing. Ordering itself belongs to the
    storage engine and is an input here. */
module EventQuery {
  import opened Common
  import opened JavaText
  import opened Entity

  const StartTime: string := "startTime"

  /** The fields a listing may be sorted by. */
  const SortFields: set<string> := {"title", StartTime, "endTime", "location", "quota"}

  /** normalizeSortField: a whitelisted name is kept as it is; null, blank,
      unknown and differently-cased names all fall back to startTime. */
  function NormalizeSortField(f: Option<string>): (r: string)
    ensures r in SortFields
    ensures f.Some? && f.value in SortFields ==> r == f.value
    ensures f.None? || f.value !in SortFields ==> r == StartTime
  {
    if f.None? || IsBlank(f.value) then
      assert f.Some? ==> forall n :: n in SortFields ==> !IsWhitespace(n[0]);
      StartTime
    else if f.value == "title" then "title"
    else if f.value == "endTime" then "endTime"
    else if f.value == "location" then "location"
    else if f.value == "quota" then "quota"
    else StartTime
  }

  /** Sort.Direction. */
  datatype Direction = Asc | Desc

  /** normalizeSortDir: ascending exactly for "asc" in any letter case;
      null and every other string give descending. */
  function NormalizeSortDir(d: Option<string>): (r: Direction)
    ensures r == Asc <==> d.Some? && ToLower(d.value) == "asc"
  {
    match d
    case None => Desc
    case Some(s) =>
      EqualsIgnoreCaseIsLowerEquality("asc", s);
      LowerAsc();
      if EqualsIgnoreCase("asc", s) then Asc else Desc
  }

  lemma LowerAsc()
    ensures ToLower("asc") == "asc" && ToLower("ASC") == "asc" && ToLower("DESC") == "desc"
  {
  }

  /** Sort.Direction.name(). */
  function DirectionName(d: Direction): string {
    match d
    case Asc => "ASC"
    case Desc => "DESC"
  }

  /** The effective sort reported back with a listing. */
  datatype SortMeta = SortMeta(field: string, direction: string)

  /** The sort metadata of a listing: the normalised field and the
      lower-cased direction name. */
  function EffectiveSort(sortField: Option<string>, sortDirection: Option<string>): (m: SortMeta)
    ensures m.field in SortFields
    ensures m.field == NormalizeSortField(sortField)
    ensures m.direction == "asc" || m.direction == "desc"
    ensures m.direction == "asc" <==> sortDirection.Some? && ToLower(sortDirection.value) == "asc"
  {
    LowerAsc();
    SortMeta(NormalizeSortField(sortField), ToLower(DirectionName(NormalizeSortDir(sortDirection))))
  }

  /** The optional filters of a listing: free text q, and an inclusive
      start-time window [from, to]; None stands for a null parameter. */
  datatype Criteria = Criteria(q: Option<string>, from: Option<int>, to: Option<int>)

  /** The free-text filter is active for a non-null, non-blank q. */
  predicate TextActive(q: Option<string>) {
    q.Some? && !IsBlank(q.value)
  }

  /** LOWER(column) LIKE '%pattern%'. A null column yields SQL NULL, which
      never selects a row. */
  predicate ColumnLike(column: Option<string>, pattern: string) {
    column.Some? && Contains(ToLower(column.value), pattern)
  }

  /** The free-text predicate: title, location or description contains the
      pattern. */
  predicate TextMatches(e: Event, pattern: string) {
    ColumnLike(Some(e.title), pattern) || ColumnLike(e.location, pattern) || ColumnLike(e.description, pattern)
  }

  /** Which events a listing keeps: all three optional conditions hold. */
  predicate Admits(c: Criteria, e: Event) {
    (!TextActive(c.q) || TextMatches(e, ToLower(Trim(c.q.value))))
    && (c.from.None? || e.startTime >= c.from.value)
    && (c.to.None? || e.startTime <= c.to.value)
  }

  /** One predicate of the JPA Specification that the listing builds. */
  datatype Clause = Like(pattern: string) | StartAtLeast(bound: int) | StartAtMost(bound: int)

  predicate Holds(clause: Clause, e: Event) {
    match clause
    case Like(pattern) => TextMatches(e, pattern)
    case StartAtLeast(bound) => e.startTime >= bound
    case StartAtMost(bound) => e.startTime <= bound
  }

  /** criteriaBuilder.and over the list; the empty list is conjunction(),
      which holds of every event. */
  predicate AllHold(filters: seq<Clause>, e: Event) {
    forall i :: 0 <= i < |filters| ==> Holds(filters[i], e)
  }

  /** The specification lambda: one predicate added per active filter, in
      the order text, from, to. The list selects exactly the events the
      criteria admit. */
  method BuildFilters(c: Criteria) returns (filters: seq<Clause>)
    ensures forall e :: AllHold(filters, e) <==> Admits(c, e)
    ensures |filters| == (if TextActive(c.q) then 1 else 0) + (if c.from.Some? then 1 else 0) + (if c.to.Some? then 1 else 0)
  {
    filters := [];
    if c.q.Some? && !IsBlank(c.q.value) {
      var likePattern := ToLower(Trim(c.q.value));
      AddFilter(filters, Like(likePattern));
      filters := filters + [Like(likePattern)];
    }
    assert forall e :: AllHold(filters, e) <==> (!TextActive(c.q) || TextMatches(e, ToLower(Trim(c.q.value))));
    if c.from.Some? {
      AddFilter(filters, StartAtLeast(c.from.value));
      filters := filters + [StartAtLeast(c.from.value)];
    }
    assert forall e :: AllHold(filters, e) <==>
      (!TextActive(c.q) || TextMatches(e, ToLower(Trim(c.q.value)))) && (c.from.None? || e.startTime >= c.from.value);
    if c.to.Some? {
      AddFilter(filters, StartAtMost(c.to.value));
      filters := filters + [StartAtMost(c.to.value)];
    }
  }

  /** Adding a predicate to the list conjoins it. */
  lemma AddFilter(filters: seq<Clause>, clause: Clause)
    ensures forall e :: AllHold(filters + [clause], e) <==> AllHold(filters, e) && Holds(clause, e)
  {
    forall e | AllHold(filters, e) && Holds(clause, e) ensures AllHold(filters + [clause], e) {
      forall i | 0 <= i < |filters| + 1 ensures Holds((filters + [clause])[i], e) {
        if i < |filters| { assert (filters + [clause])[i] == filters[i]; }
      }
    }
    forall e | AllHold(filters + [clause], e) ensures AllHold(filters, e) && Holds(clause, e) {
      assert (filters + [clause])[|filters|] == clause;
      forall i | 0 <= i < |filters| ensures Holds(filters[i], e) {
        assert (filters + [clause])[i] == filters[i];
      }
    }
  }

  /** The events of es the criteria admit, in the order of es. */
  function Select(es: seq<Event>, c: Criteria): (r: seq<Event>)
    ensures |r| <= |es|
    ensures forall e :: e in r <==> e in es && Admits(c, e)
  {
    if es == [] then []
    else (if Admits(c, es[0]) then [es[0]] else []) + Select(es[1..], c)
  }

  /** Filtering a concatenation filters each part and keeps them in
      order: the listing keeps the storage order and each admitted event
      once per occurrence. */
  lemma {:induction false} SelectAppend(a: seq<Event>, b: seq<Event>, c: Criteria)
    ensures Select(a + b, c) == Select(a, c) + Select(b, c)
  {
    if a == [] {
      assert a + b == b;
    } else {
      assert (a + b)[0] == a[0];
      assert (a + b)[1..] == a[1..] + b;
      SelectAppend(a[1..], b, c);
    }
  }

  /** findAll(spec): the rows of es on which every predicate of the built
      Specification holds, in the order of es. */
  function Query(es: seq<Event>, filters: seq<Clause>): (r: seq<Event>)
    ensures forall e :: e in r ==> e in es && AllHold(filters, e)
  {
    if es == [] then []
    else (if AllHold(filters, es[0]) then [es[0]] else []) + Query(es[1..], filters)
  }

  /** Running a predicate list that selects exactly the events the criteria
      admit gives the reference filtered listing. */
  lemma {:induction false} QueryIsSelect(es: seq<Event>, filters: seq<Clause>, c: Criteria)
    requires forall e :: AllHold(filters, e) <==> Admits(c, e)
    ensures Query(es, filters) == Select(es, c)
  {
    if es != [] {
      QueryIsSelect(es[1..], filters, c);
    }
  }

  function Min(a: int, b: int): int {
    if a <= b then a else b
  }

  /** Page index of size elements of s: the elements from index * size on,
      at most size of them; a page past the end is empty. */
  function PageOf<T>(s: seq<T>, index: nat, size: nat): (r: seq<T>)
    requires size >= 1
    ensures |r| == if index * size >= |s| then 0 else Min(size, |s| - index * size)
    ensures forall k :: 0 <= k < |r| ==> r[k] == s[index * size + k]
    ensures forall x :: x in r ==> x in s
  {
    var start := index * size;
    if start >= |s| then [] else s[start..Min(start + size, |s|)]
  }

  /** Every element of s is on exactly one page: element k is at offset
      k % size of page k / size. */
  lemma {:induction false} PagesCover<T>(s: seq<T>, size: nat, k: nat)
    requires size >= 1 && k < |s|
    ensures k % size < |PageOf(s, k / size, size)|
    ensures PageOf(s, k / size, size)[k % size] == s[k]
  {
    var q, m := k / size, k % size;
    assert q * size + m == k;
  }

  /** isBlank and trim disagree on control characters: a q made of U+0001
      is not blank, so the text filter is active, yet trims to the empty
      pattern '%%', which every event's title matches. */
  lemma ControlCharacterQueryFiltersNothing(e: Event, from: Option<int>, to: Option<int>)
    ensures TextActive(Some("\U{1}"))
    ensures Admits(Criteria(Some("\U{1}"), from, to), e) <==> Admits(Criteria(None, from, to), e)
  {
    var q := "\U{1}";
    assert !IsWhitespace(q[0]);
    assert TrimStart(q) == [];
    assert ToLower(Trim(q)) == [];
    assert OccursAt(ToLower(e.title), [], 0);
  }
}
