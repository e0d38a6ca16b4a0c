/**
 * The pagination envelope (`create_pagination`): the page number and
 * limit, links to the next and previous pages that repeat the request's
 * other query parameters, and the serialized items of the page.
 */
module Pagination {
  import opened Common
  import opened Numerals

  /**
   * What the envelope reads from the paginator: the page's items and the
   * numbers of the next and previous pages, `None` when there is none.
   */
  datatype Page<T> = Page(items: seq<T>, nextNum: Option<int>, prevNum: Option<int>)

  /** The response dictionary `{page, limit, next, prev, results}`. */
  datatype Envelope<D> = Envelope(page: int, limit: int, next: Option<string>, prev: Option<string>, results: seq<D>)

  /** The query-string tail `&key=value...`, one term per parameter, in order; nothing is escaped. */
  function ParamSuffix(params: seq<(string, string)>): (r: string)
    ensures params == [] ==> r == ""
    decreases |params|
  {
    if params == [] then ""
    else ParamSuffix(params[..|params| - 1]) + "&" + params[|params| - 1].0 + "=" + params[|params| - 1].1
  }

  /** The suffix of two parameter lists in a row is the two suffixes in a row. */
  lemma {:induction false} ParamSuffixAppend(a: seq<(string, string)>, b: seq<(string, string)>)
    ensures ParamSuffix(a + b) == ParamSuffix(a) + ParamSuffix(b)
    decreases |b|
  {
    if b == [] {
      assert a + b == a;
    } else {
      var ab := a + b;
      var b' := b[..|b| - 1];
      assert ab[..|ab| - 1] == a + b';
      assert ab[|ab| - 1] == b[|b| - 1];
      ParamSuffixAppend(a, b');
    }
  }

  /** Python's truthiness of a page number: `None` and 0 are false. */
  predicate Truthy(n: Option<int>) {
    n.Some? && n.value != 0
  }

  /** What follows the page number in a link: `&limit=<limit><suffix>`. */
  function LinkTail(limit: int, suffix: string): (r: string)
    ensures |r| > 0 && r[0] == '&'
  {
    "&limit=" + Decimal(limit) + suffix
  }

  /** The link to page `num`: `url?page=<num>&limit=<limit><suffix>`. */
  function Link(url: string, num: int, limit: int, suffix: string): string {
    url + "?page=" + (Decimal(num) + LinkTail(limit, suffix))
  }

  /** A string of signs and digits ends where the `&` that follows it starts, so it can be cut back out. */
  lemma NumberBeforeAmpersand(d1: string, d2: string, t1: string, t2: string)
    requires forall i | 0 <= i < |d1| :: d1[i] == '-' || IsDigit(d1[i])
    requires forall i | 0 <= i < |d2| :: d2[i] == '-' || IsDigit(d2[i])
    requires |t1| > 0 && t1[0] == '&' && |t2| > 0 && t2[0] == '&'
    requires d1 + t1 == d2 + t2
    ensures d1 == d2
  {
    var w := d1 + t1;
    assert d1 == w[..|d1|];
    assert d2 == w[..|d2|];
  }

  /** Links to two different pages differ; the page number can be read back from the link. */
  lemma LinkInjective(url: string, n1: int, n2: int, limit: int, suffix: string)
    requires Link(url, n1, limit, suffix) == Link(url, n2, limit, suffix)
    ensures n1 == n2
  {
    var pre := url + "?page=";
    var tail := LinkTail(limit, suffix);
    var d1, d2 := Decimal(n1), Decimal(n2);
    assert (pre + (d1 + tail))[|pre|..] == d1 + tail;
    assert (pre + (d2 + tail))[|pre|..] == d2 + tail;
    NumberBeforeAmpersand(d1, d2, tail, tail);
    DecimalInjective(n1, n2);
  }

  /**
   * `create_pagination`. `dump` stands for the schema's serialization of one
   * item; the caller's parameters are a value here, so the copy the source
   * takes of them before use leaves nothing to mutate.
   */
  function CreatePagination<T, D>(items: Page<T>, dump: T -> D, page: int, limit: int,
                                  params: seq<(string, string)>, url: string): (r: Envelope<D>)
    ensures r.page == page && r.limit == limit
    ensures r.next.None? <==> !Truthy(items.nextNum)
    ensures r.prev.None? <==> !Truthy(items.prevNum)
    ensures r.next.Some? ==> r.next.value == Link(url, items.nextNum.value, limit, ParamSuffix(params))
    ensures r.prev.Some? ==> r.prev.value == Link(url, items.prevNum.value, limit, ParamSuffix(params))
    ensures |r.results| == |items.items|
    ensures forall i | 0 <= i < |items.items| :: r.results[i] == dump(items.items[i])
  {
    var suffix := ParamSuffix(params);
    Envelope(
      page,
      limit,
      if Truthy(items.nextNum) then Some(Link(url, items.nextNum.value, limit, suffix)) else None,
      if Truthy(items.prevNum) then Some(Link(url, items.prevNum.value, limit, suffix)) else None,
      seq(|items.items|, i requires 0 <= i < |items.items| => dump(items.items[i])))
  }

  /**
   * The next and previous links, when both are present, share everything
   * but the page number, and they are equal only when the page numbers are.
   */
  lemma NextPrevDifferOnlyInPage<T, D>(items: Page<T>, dump: T -> D, page: int, limit: int,
                                       params: seq<(string, string)>, url: string)
    requires Truthy(items.nextNum) && Truthy(items.prevNum)
    ensures var r := CreatePagination(items, dump, page, limit, params, url);
      && r.next.Some? && r.prev.Some?
      && (exists pre: string, post: string ::
            r.next.value == pre + Decimal(items.nextNum.value) + post &&
            r.prev.value == pre + Decimal(items.prevNum.value) + post)
      && (r.next == r.prev <==> items.nextNum == items.prevNum)
  {
    var r := CreatePagination(items, dump, page, limit, params, url);
    var pre := url + "?page=";
    var post := LinkTail(limit, ParamSuffix(params));
    assert r.next.value == pre + Decimal(items.nextNum.value) + post;
    assert r.prev.value == pre + Decimal(items.prevNum.value) + post;
    if r.next == r.prev {
      LinkInjective(url, items.nextNum.value, items.prevNum.value, limit, ParamSuffix(params));
    }
  }
}
