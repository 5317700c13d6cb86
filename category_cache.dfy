/** The category cache of the expense parser: the list of categories offered to
    the language model is fetched from the current month's tab at most once an
    hour, and served from memory in between. */
module CategoryCache {
  import opened Text
  import opened Sheets

  /** How long a fetched list is served, in milliseconds: one hour. */
  const CacheTtl: int := 60 * 60 * 1000

  /** The cache state: the cached list (None while it is null) and the clock
      reading, in milliseconds, at which it was fetched. */
  datatype State = State(cached: Option<seq<string>>, cachedAt: int)

  /** The state when the program starts: nothing cached, fetched at time 0. */
  const Initial := State(None, 0)

  /** Whether the cached list is served at time now. Any list counts as
      present, the empty one included, since an empty array is truthy. */
  predicate Fresh(s: State, now: int)
  {
    s.cached.Some? && now - s.cachedAt < CacheTtl
  }

  /** One call of getCachedCategories at time now, as its answer and the next
      state, given what getCategories would give at that moment. A fresh list is
      served without asking; otherwise the fetched list is stored with the time
      and returned, and a failed fetch is passed on with the state unchanged. */
  function Step(s: State, now: int, fetched: Result<seq<string>>): (Result<seq<string>>, State)
  {
    if Fresh(s, now) then (Ok(s.cached.value), s)
    else if fetched.Err? then (fetched, s)
    else (fetched, State(Some(fetched.value), now))
  }

  /** Within the hour, the cached list is served whatever getCategories would
      give, and the state does not change. */
  lemma ServedWhileFresh(s: State, now: int, fetched: Result<seq<string>>, other: Result<seq<string>>)
    requires s.cached.Some? && now - s.cachedAt < CacheTtl
    ensures Step(s, now, fetched) == Step(s, now, other) == (Ok(s.cached.value), s)
  {
  }

  /** An empty cached list is still a cached list: it is served, not refetched. */
  lemma EmptyListIsServed(cachedAt: int, now: int, fetched: Result<seq<string>>)
    requires now - cachedAt < CacheTtl
    ensures Step(State(Some([]), cachedAt), now, fetched) == (Ok([]), State(Some([]), cachedAt))
  {
  }

  /** With nothing cached, or once an hour or more has passed, the answer is what
      getCategories gives; a list it gives is stored with the time of the call. */
  lemma RefetchedWhenStale(s: State, now: int, fetched: Result<seq<string>>)
    requires s.cached.None? || now - s.cachedAt >= CacheTtl
    ensures Step(s, now, fetched).0 == fetched
    ensures fetched.Ok? ==> Step(s, now, fetched).1 == State(Some(fetched.value), now)
    ensures fetched.Err? ==> Step(s, now, fetched).1 == s
  {
  }

  /** The first call after start-up always fetches. */
  lemma FirstCallFetches(now: int, fetched: Result<seq<string>>)
    ensures Step(Initial, now, fetched).0 == fetched
  {
  }

  /** A successful answer is what the cache now holds, and it is fresh at the
      time of the call. */
  lemma AnswerIsCached(s: State, now: int, fetched: Result<seq<string>>)
    requires Step(s, now, fetched).0.Ok?
    ensures var (answer, next) := Step(s, now, fetched);
      next.cached == Some(answer.value) && Fresh(next, now)
  {
  }

  /** Two calls in a row: when the first one succeeds, a second one made before
      the stored list is an hour old gives the same list and changes nothing,
      whatever getCategories would give then. */
  lemma RepeatedCallAgrees(s: State, now: int, fetched: Result<seq<string>>, later: int, refetched: Result<seq<string>>)
    requires Step(s, now, fetched).0.Ok?
    requires later - Step(s, now, fetched).1.cachedAt < CacheTtl
    ensures Step(Step(s, now, fetched).1, later, refetched) == (Step(s, now, fetched).0, Step(s, now, fetched).1)
  {
    AnswerIsCached(s, now, fetched);
  }

  /** After a refetch at time now, every call up to an hour later is served
      from the cache. */
  lemma RefreshLastsAnHour(s: State, now: int, list: seq<string>, later: int, refetched: Result<seq<string>>)
    requires !Fresh(s, now)
    requires now <= later < now + CacheTtl
    ensures Step(Step(s, now, Ok(list)).1, later, refetched) == (Ok(list), State(Some(list), now))
  {
  }

  /** A clock that goes back to before the fetch keeps the cached list served:
      the elapsed time is negative, hence below the lifetime. */
  lemma ClockBackwardsServes(s: State, now: int, fetched: Result<seq<string>>)
    requires s.cached.Some? && now < s.cachedAt
    ensures Step(s, now, fetched) == (Ok(s.cached.value), s)
  {
  }

  /** The module-level cache of the parser, with the two variables it updates. */
  class Cache {
    var cachedCategories: Option<seq<string>>
    var categoriesCachedAt: int

    constructor ()
      ensures cachedCategories == Initial.cached && categoriesCachedAt == Initial.cachedAt
    {
      cachedCategories := None;
      categoriesCachedAt := 0;
    }

    function Current(): State
      reads this
    {
      State(cachedCategories, categoriesCachedAt)
    }

    /** getCachedCategories(), with the clock reading now (in milliseconds) and
        the calendar month and year of that reading, which getCategories uses
        to pick the tab. A fresh list is served without calling getCategories;
        otherwise getCategories is called exactly once. */
    method GetCachedCategories(doc: Document, now: int, month: int, year: int) returns (r: Result<seq<string>>)
      requires 1 <= month <= 12
      modifies this, doc
      ensures (r, Current()) == Step(old(Current()), now, doc.CategoriesOf(month, year))
      ensures Fresh(old(Current()), now) ==> doc.fetches == old(doc.fetches)
      ensures !Fresh(old(Current()), now) ==> doc.fetches == old(doc.fetches) + 1
    {
      if cachedCategories.Some? && now - categoriesCachedAt < CacheTtl {
        return Ok(cachedCategories.value);
      }
      var fetched := doc.GetCategories(month, year);
      if fetched.Err? {
        return fetched;
      }
      cachedCategories := Some(fetched.value);
      categoriesCachedAt := now;
      return Ok(fetched.value);
    }
  }
}
