/**
 * The pagination window of the article list: an object whose page numbers and article
 * list are computed from a repository page on first access and cached in its fields,
 * where 0 (for a number) and `None` (for the list) mean "not computed yet".
 */
module ArticlePages {
  import opened JavaInt
  import opened Domain
  import opened Paging
  import opened ServiceConstants

  /** The fields of an `ArticlePage`; `page` is `None` for an object built from explicit values. */
  datatype PageState = PageState(page: Option<Page>, current: int32, start: int32, end: int32, articles: Option<seq<Article>>)

  /** The four getters. */
  datatype Getter = Current | Start | End | Articles

  /** What a getter returns. */
  datatype Answer = Number(n: int32) | Items(list: seq<Article>)

  /** The fields after a getter call, and what the call returned. */
  datatype Step = Step(next: PageState, answer: Answer)

  /** The fields as the explicit constructor sets them. */
  function BuiltWith(start: int32, current: int32, end: int32, list: Option<seq<Article>>): PageState {
    PageState(None, current, start, end, list)
  }

  /** The fields as the constructor taking a repository page sets them. */
  function BuiltFrom(page: Page): PageState {
    PageState(Some(page), 0, 0, 0, None)
  }

  /** The getter returns without dereferencing an absent page. */
  predicate Defined(f: PageState, g: Getter) {
    match g
    case Current => f.current != 0 || f.page.Some?
    case Start => f.start != 0 || f.current != 0 || f.page.Some?
    case End => f.end != 0 || f.page.Some?
    case Articles => f.articles.Some? || f.page.Some?
  }

  /** `getCurrentPage`: the zero-based page number plus one, cached unless it is 0. */
  function CurrentStep(f: PageState): (s: Step)
    requires Defined(f, Current)
    ensures s.answer.Number? && s.next == f.(current := s.answer.n)
    ensures f.current != 0 ==> s.answer.n == f.current
    ensures f.current == 0 && 0 <= f.page.value.number as int < MaxInt32 ==>
              s.answer.n as int == f.page.value.number as int + 1 >= 1
  {
    if f.current == 0 then
      var c := Add(f.page.value.number, 1);
      Step(f.(current := c), Number(c))
    else
      Step(f, Number(f.current))
  }

  /** `getStartPage`: `max(1, current - 5)`, never 0 and so computed at most once. */
  function StartStep(f: PageState): (s: Step)
    requires Defined(f, Start)
    ensures s.answer.Number? && s.next.start == s.answer.n
    ensures s.next.page == f.page && s.next.end == f.end && s.next.articles == f.articles
    ensures f.start != 0 ==> s == Step(f, Number(f.start))
    ensures f.start == 0 ==>
              var c := CurrentStep(f).answer.n;
              && s.next.current == c
              && 1 <= s.answer.n
              && (c as int >= MinInt32 + PaginationIntervalFromCurrentPageNumber as int ==>
                    s.answer.n as int == (if c as int - 5 < 1 then 1 else c as int - 5))
              && (1 <= c ==> s.answer.n <= c)
  {
    if f.start == 0 then
      var cs := CurrentStep(f);
      var st := Max(1, Sub(cs.answer.n, PaginationIntervalFromCurrentPageNumber));
      Step(cs.next.(start := st), Number(st))
    else
      Step(f, Number(f.start))
  }

  /**
   * `getEndPage`: `min(current + 5, totalPages)`. A computed 0 is left in the field, which
   * then still reads "not computed", so the next call computes it again.
   */
  function EndStep(f: PageState): (s: Step)
    requires Defined(f, End)
    ensures s.answer.Number? && s.next.end == s.answer.n
    ensures s.next.page == f.page && s.next.start == f.start && s.next.articles == f.articles
    ensures f.end != 0 ==> s == Step(f, Number(f.end))
    ensures f.end == 0 ==>
              var c := CurrentStep(f).answer.n;
              var total := f.page.value.totalPages;
              && s.next.current == c
              && s.answer.n <= total
              && (c as int <= MaxInt32 - PaginationIntervalFromCurrentPageNumber as int ==>
                    && s.answer.n as int <= c as int + 5
                    && s.answer.n as int == (if c as int + 5 < total as int then c as int + 5 else total as int)
                    && (c <= total ==> c <= s.answer.n))
  {
    if f.end == 0 then
      var cs := CurrentStep(f);
      var e := Min(Add(cs.answer.n, PaginationIntervalFromCurrentPageNumber), f.page.value.totalPages);
      Step(cs.next.(end := e), Number(e))
    else
      Step(f, Number(f.end))
  }

  /** `getArticles`: the page's content, fetched on the first call and cached. */
  function ArticlesStep(f: PageState): (s: Step)
    requires Defined(f, Articles)
    ensures s.answer.Items? && s.next == f.(articles := Some(s.answer.list))
    ensures f.articles.Some? ==> s == Step(f, Items(f.articles.value))
    ensures f.articles.None? ==> s.answer.list == f.page.value.content
  {
    if f.articles.None? then
      Step(f.(articles := Some(f.page.value.content)), Items(f.page.value.content))
    else
      Step(f, Items(f.articles.value))
  }

  function Call(f: PageState, g: Getter): Step
    requires Defined(f, g)
  {
    match g
    case Current => CurrentStep(f)
    case Start => StartStep(f)
    case End => EndStep(f)
    case Articles => ArticlesStep(f)
  }

  /** A getter call never makes another getter undefined. */
  lemma CallPreservesDefined(f: PageState, g: Getter)
    requires Defined(f, g)
    ensures Call(f, g).next.page == f.page
    ensures forall h :: Defined(f, h) ==> Defined(Call(f, g).next, h)
  {
  }

  /** A getter call does not change what any getter returns afterwards. */
  lemma CallsDoNotInterfere(f: PageState, g: Getter, h: Getter)
    requires Defined(f, g) && Defined(f, h)
    ensures Defined(Call(f, g).next, h)
    ensures Call(Call(f, g).next, h).answer == Call(f, h).answer
  {
    CallPreservesDefined(f, g);
  }

  /** The answers of the getter calls `gs`, made one after the other starting from `f`. */
  function Run(f: PageState, gs: seq<Getter>): (answers: seq<Answer>)
    requires forall i :: 0 <= i < |gs| ==> Defined(f, gs[i])
    ensures |answers| == |gs|
    decreases |gs|
  {
    if gs == [] then []
    else
      var s := Call(f, gs[0]);
      CallPreservesDefined(f, gs[0]);
      [s.answer] + Run(s.next, gs[1..])
  }

  /** In any sequence of getter calls, every call returns what that getter returns on the fresh object. */
  lemma {:induction false} RunIsStable(f: PageState, gs: seq<Getter>)
    requires forall i :: 0 <= i < |gs| ==> Defined(f, gs[i])
    ensures forall i :: 0 <= i < |gs| ==> Run(f, gs)[i] == Call(f, gs[i]).answer
    decreases |gs|
  {
    if gs != [] {
      var s := Call(f, gs[0]);
      CallPreservesDefined(f, gs[0]);
      RunIsStable(s.next, gs[1..]);
      forall i | 1 <= i < |gs|
        ensures Run(f, gs)[i] == Call(f, gs[i]).answer
      {
        CallsDoNotInterfere(f, gs[0], gs[i]);
      }
    }
  }

  /** Calling a getter twice returns the same value twice. */
  lemma GetterIdempotent(f: PageState, g: Getter)
    requires Defined(f, g)
    ensures Defined(Call(f, g).next, g)
    ensures Call(Call(f, g).next, g).answer == Call(f, g).answer
  {
    CallsDoNotInterfere(f, g, g);
  }

  /** Values the explicit constructor sets to non-zero (non-null) are returned as given and cause no change. */
  lemma ExplicitValuesReturnedAsGiven(start: int32, current: int32, end: int32, list: Option<seq<Article>>)
    ensures var f := BuiltWith(start, current, end, list);
      && (current != 0 ==> Call(f, Current) == Step(f, Number(current)))
      && (start != 0 ==> Call(f, Start) == Step(f, Number(start)))
      && (end != 0 ==> Call(f, End) == Step(f, Number(end)))
      && (list.Some? ==> Call(f, Articles) == Step(f, Items(list.value)))
  {
  }

  /**
   * The window of a page built from a repository page numbered below the last five int
   * values: current is the number plus one, start and end lie within 5 of it and inside
   * 1..totalPages, and the window spans at most 10 pages.
   */
  lemma WindowFromPage(page: Page)
    requires 0 <= page.number as int < MaxInt32 - PaginationIntervalFromCurrentPageNumber as int
    ensures var f := BuiltFrom(page);
      var c := Call(f, Current).answer.n as int;
      var s := Call(f, Start).answer.n as int;
      var e := Call(f, End).answer.n as int;
      var total := page.totalPages as int;
      && c == page.number as int + 1
      && 1 <= s <= c
      && s == (if c - 5 < 1 then 1 else c - 5)
      && e == (if c + 5 < total then c + 5 else total)
      && e <= total && e <= c + 5
      && (c <= total ==> c <= e)
      && e - s <= 2 * PaginationIntervalFromCurrentPageNumber as int
  {
  }

  /** With no pages the end is 0, stays "not computed" in the field and is recomputed, still 0, on every call. */
  lemma EmptyPageEndRecomputed(page: Page)
    requires page.totalPages == 0 && 0 <= page.number as int < MaxInt32 - 5
    ensures Call(BuiltFrom(page), End).answer == Number(0)
    ensures Call(BuiltFrom(page), End).next.end == 0
  {
  }

  /** On the last int page number, `number + 1` wraps: current is negative and start exceeds it. */
  lemma LastPageNumberWraps(page: Page)
    requires page.number as int == MaxInt32
    ensures Call(BuiltFrom(page), Current).answer.n as int == MinInt32
    ensures Call(BuiltFrom(page), Start).answer.n as int == MaxInt32 - 4
  {
  }

  /**
   * Near the last int, `current + 5` wraps as well: the page numbered one below the last int
   * has current MaxInt32 and, even with MaxInt32 pages in all, a negative end.
   */
  lemma EndPageWrapsNearLastInt(page: Page)
    requires page.number as int == MaxInt32 - 1 && page.totalPages as int == MaxInt32
    ensures Call(BuiltFrom(page), Current).answer.n as int == MaxInt32
    ensures Call(BuiltFrom(page), End).answer.n as int == MinInt32 + 4
  {
  }

  class ArticlePage {
    var page: Option<Page>
    var current: int32
    var start: int32
    var end: int32
    var articles: Option<seq<Article>>

    ghost function State(): PageState
      reads this
    {
      PageState(page, current, start, end, articles)
    }

    constructor (start: int32, current: int32, end: int32, list: Option<seq<Article>>)
      ensures State() == BuiltWith(start, current, end, list)
    {
      this.page := None;
      this.start := start;
      this.current := current;
      this.end := end;
      this.articles := list;
    }

    constructor FromPage(page: Page)
      ensures State() == BuiltFrom(page)
    {
      this.page := Some(page);
      this.current, this.start, this.end := 0, 0, 0;
      this.articles := None;
    }

    method GetArticles() returns (list: seq<Article>)
      requires Defined(State(), Articles)
      modifies this
      ensures Step(State(), Items(list)) == Call(old(State()), Articles)
    {
      if articles.None? {
        articles := Some(page.value.content);
      }
      list := articles.value;
    }

    method GetCurrentPage() returns (r: int32)
      requires Defined(State(), Current)
      modifies this
      ensures Step(State(), Number(r)) == Call(old(State()), Current)
    {
      if current == 0 {
        current := Add(page.value.number, 1);
      }
      r := current;
    }

    method GetStartPage() returns (r: int32)
      requires Defined(State(), Start)
      modifies this
      ensures Step(State(), Number(r)) == Call(old(State()), Start)
    {
      if start == 0 {
        var c := GetCurrentPage();
        start := Max(1, Sub(c, PaginationIntervalFromCurrentPageNumber));
      }
      r := start;
    }

    method GetEndPage() returns (r: int32)
      requires Defined(State(), End)
      modifies this
      ensures Step(State(), Number(r)) == Call(old(State()), End)
    {
      if end == 0 {
        var c := GetCurrentPage();
        end := Min(Add(c, PaginationIntervalFromCurrentPageNumber), page.value.totalPages);
      }
      r := end;
    }
  }
}
