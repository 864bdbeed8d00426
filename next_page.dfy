/**
 * Locating the next page of a listing (`detectNextURL`): an explicit
 * "next" link wins; otherwise the `page` query parameter of the base URL
 * is read with `parseInt` and incremented.
 *
 * A URL is abstracted to the part the locator looks at, its query as an
 * ordered list of name/value pairs (what `URLSearchParams` holds), and an
 * opaque rest.  Parsing and serialising URLs are foreign calls: an `Href`
 * is either a string the URL parser accepts (`Parsed`) or one it rejects
 * (`Unparsed`, which also stands for the empty string of a missing `href`).
 */
module NextPage {
  import opened JsValues

  datatype Param = Param(name: string, value: string)

  datatype Url = Url(rest: string, query: seq<Param>)

  datatype Href = Parsed(url: Url) | Unparsed(text: string)

  const PageParam := "page"

  /** An href in boolean context: only the empty string is falsy, and a
      parsed URL always serialises to a non-empty string. */
  predicate HrefTruthy(h: Href) {
    h.Parsed? || h.text != ""
  }

  /** The values of the parameters called `name`, in order. */
  function Named(q: seq<Param>, name: string): seq<string> {
    if q == [] then []
    else if q[0].name == name then [q[0].value] + Named(q[1..], name)
    else Named(q[1..], name)
  }

  /** The query without the parameters called `name`. */
  function Without(q: seq<Param>, name: string): (r: seq<Param>)
    ensures forall i :: 0 <= i < |r| ==> r[i].name != name
  {
    if q == [] then []
    else if q[0].name == name then Without(q[1..], name)
    else [q[0]] + Without(q[1..], name)
  }

  /** `searchParams.get(name)`: the value of the first parameter called `name`, or null. */
  function GetParam(q: seq<Param>, name: string): (r: Option<string>)
    ensures r == if Named(q, name) == [] then None else Some(Named(q, name)[0])
  {
    if q == [] then None
    else if q[0].name == name then Some(q[0].value)
    else GetParam(q[1..], name)
  }

  /** Replaces the value of the first parameter called `name` and drops the later ones. */
  function ReplaceFirst(q: seq<Param>, name: string, value: string): seq<Param>
  {
    if q == [] then []
    else if q[0].name == name then [Param(name, value)] + Without(q[1..], name)
    else [q[0]] + ReplaceFirst(q[1..], name, value)
  }

  /** `searchParams.set(name, value)`: if a parameter called `name` exists,
      the first one takes the new value and the others are removed;
      otherwise the pair is appended. */
  function SetParam(q: seq<Param>, name: string, value: string): seq<Param>
  {
    if GetParam(q, name).Some? then ReplaceFirst(q, name, value) else q + [Param(name, value)]
  }

  /**
   * `detectNextURL(root, baseHref)`: `nextLink` is the `href` of the first
   * element of the document matching the next-link selectors, if any;
   * `location` is the page's own address, used when `baseHref` is falsy.
   * `None` is `null`.
   */
  function DetectNextUrl(nextLink: Option<Href>, baseHref: Href, location: Href): (r: Option<Href>)
    // a non-null result passes the scroll guard's null test
    ensures r.Some? ==> HrefTruthy(r.value)
    ensures nextLink.Some? && HrefTruthy(nextLink.value) ==> r == nextLink
  {
    if nextLink.Some? && HrefTruthy(nextLink.value) then nextLink
    else
      match if HrefTruthy(baseHref) then baseHref else location
      case Unparsed(_) => None
      case Parsed(u) => IncrementPage(u)
  }

  /** The text `parseInt` is given: the `page` value, or `'1'` when it is missing or empty. */
  function PageText(u: Url): string {
    var raw := GetParam(u.query, PageParam);
    if Truthy(raw) then raw.value else "1"
  }

  /** The fallback of `detectNextURL` on a parsed base URL. */
  function IncrementPage(u: Url): Option<Href> {
    match ParseInt(PageText(u))
    case None => None
    case Some(n) => Some(Parsed(Url(u.rest, SetParam(u.query, PageParam, IntToString(n + 1)))))
  }

  // ---------------------------------------------------------------------
  // URLSearchParams.set

  lemma {:induction false} WithoutNamed(q: seq<Param>, name: string)
    ensures Named(Without(q, name), name) == []
    decreases |q|
  {
    if q != [] {
      WithoutNamed(q[1..], name);
    }
  }

  lemma {:induction false} WithoutIdempotent(q: seq<Param>, name: string)
    ensures Without(Without(q, name), name) == Without(q, name)
    decreases |q|
  {
    if q != [] {
      WithoutIdempotent(q[1..], name);
    }
  }

  lemma {:induction false} ReplaceFirstFacts(q: seq<Param>, name: string, value: string)
    requires Named(q, name) != []
    ensures Named(ReplaceFirst(q, name, value), name) == [value]
    ensures Without(ReplaceFirst(q, name, value), name) == Without(q, name)
    decreases |q|
  {
    if q[0].name == name {
      WithoutNamed(q[1..], name);
      WithoutIdempotent(q[1..], name);
    } else {
      ReplaceFirstFacts(q[1..], name, value);
    }
  }

  lemma {:induction false} AppendFacts(q: seq<Param>, name: string, value: string)
    requires Named(q, name) == []
    ensures Named(q + [Param(name, value)], name) == [value]
    ensures Without(q + [Param(name, value)], name) == Without(q, name)
    decreases |q|
  {
    if q == [] {
      assert q + [Param(name, value)] == [Param(name, value)];
    } else {
      assert (q + [Param(name, value)])[1..] == q[1..] + [Param(name, value)];
      AppendFacts(q[1..], name, value);
    }
  }

  /** After `set`, exactly one parameter has the name, with the new value,
      and every other parameter is still there, in the same order. */
  lemma SetParamFacts(q: seq<Param>, name: string, value: string)
    ensures Named(SetParam(q, name, value), name) == [value]
    ensures GetParam(SetParam(q, name, value), name) == Some(value)
    ensures Without(SetParam(q, name, value), name) == Without(q, name)
  {
    if GetParam(q, name).Some? {
      ReplaceFirstFacts(q, name, value);
    } else {
      AppendFacts(q, name, value);
    }
  }

  /** The first parameter called `name` is at index `k`. */
  predicate FirstNamedAt(q: seq<Param>, name: string, k: int) {
    && 0 <= k < |q|
    && q[k].name == name
    && forall j :: 0 <= j < k ==> q[j].name != name
  }

  /** `set` replaces the first parameter called `name` where it stands: the
      parameters before it are untouched, and after it the later ones
      called `name` are dropped. */
  lemma SetParamInPlace(q: seq<Param>, name: string, value: string, k: int)
    requires FirstNamedAt(q, name, k)
    ensures SetParam(q, name, value) == q[..k] + [Param(name, value)] + Without(q[k + 1..], name)
  {
    ReplaceFirstInPlace(q, name, value, k);
    GetParamAt(q, name, k);
  }

  lemma {:induction false} GetParamAt(q: seq<Param>, name: string, k: int)
    requires FirstNamedAt(q, name, k)
    ensures GetParam(q, name) == Some(q[k].value)
    decreases k
  {
    if k > 0 {
      assert FirstNamedAt(q[1..], name, k - 1);
      GetParamAt(q[1..], name, k - 1);
    }
  }

  lemma {:induction false} ReplaceFirstInPlace(q: seq<Param>, name: string, value: string, k: int)
    requires FirstNamedAt(q, name, k)
    ensures ReplaceFirst(q, name, value) == q[..k] + [Param(name, value)] + Without(q[k + 1..], name)
    decreases k
  {
    if k > 0 {
      var t := q[1..];
      assert FirstNamedAt(t, name, k - 1);
      ReplaceFirstInPlace(t, name, value, k - 1);
      assert t[k..] == q[k + 1..];
      assert [q[0]] + t[..k - 1] == q[..k];
    }
  }

  /** `set` on a name the query lacks appends the pair and keeps the rest as it is. */
  lemma {:induction false} SetParamAppends(q: seq<Param>, name: string, value: string)
    requires forall j :: 0 <= j < |q| ==> q[j].name != name
    ensures SetParam(q, name, value) == q + [Param(name, value)]
    decreases |q|
  {
    if q != [] {
      SetParamAppends(q[1..], name, value);
    }
  }

  // ---------------------------------------------------------------------
  // detectNextURL

  /** `String(d)` and `parseInt` of a one-digit numeral. */
  lemma SmallNumeral(d: nat, numeral: string)
    requires d < 10 && numeral == [DigitChar(d)]
    ensures IntToString(d) == numeral
    ensures ParseInt(numeral) == Some(d)
  {
    ParseIntOfIntToString(d);
  }

  /** Without a usable next link, a parsed base URL leads to the `page` fallback. */
  lemma FallsBackToIncrement(nextLink: Option<Href>, u: Url, location: Href)
    requires !(nextLink.Some? && HrefTruthy(nextLink.value))
    ensures DetectNextUrl(nextLink, Parsed(u), location) == IncrementPage(u)
  {
  }

  /** Without a usable next link, the result depends on the parsed base URL
      alone: which unusable link the page had, and the page's own address,
      play no part. */
  lemma BaseUrlAloneDecides(n1: Option<Href>, n2: Option<Href>, u: Url, l1: Href, l2: Href)
    requires !(n1.Some? && HrefTruthy(n1.value))
    requires !(n2.Some? && HrefTruthy(n2.value))
    ensures DetectNextUrl(n1, Parsed(u), l1) == DetectNextUrl(n2, Parsed(u), l2)
  {
    FallsBackToIncrement(n1, u, l1);
    FallsBackToIncrement(n2, u, l2);
  }

  /** A next link with a non-empty href is returned as it is, whatever the base URL. */
  lemma NextLinkWins(link: Href, baseHref: Href, location: Href)
    requires HrefTruthy(link)
    ensures DetectNextUrl(Some(link), baseHref, location) == Some(link)
  {
  }

  /** Without a usable next link, a base URL the parser rejects gives null. */
  lemma UnparsableBaseGivesNull(nextLink: Option<Href>, baseHref: Href, location: Href)
    requires !(nextLink.Some? && HrefTruthy(nextLink.value))
    requires (if HrefTruthy(baseHref) then baseHref else location).Unparsed?
    ensures DetectNextUrl(nextLink, baseHref, location) == None
  {
  }

  /** Without a usable next link, a missing or empty `page` counts as page 1, so
      the result is the base URL with `page=2` and the other parameters kept. */
  lemma MissingPageGivesPageTwo(nextLink: Option<Href>, u: Url, location: Href)
    requires !(nextLink.Some? && HrefTruthy(nextLink.value))
    requires !Truthy(GetParam(u.query, PageParam))
    ensures var r := DetectNextUrl(nextLink, Parsed(u), location);
            && r.Some? && r.value.Parsed? && r.value.url.rest == u.rest
            && GetParam(r.value.url.query, PageParam) == Some("2")
            && Named(r.value.url.query, PageParam) == ["2"]
            && Without(r.value.url.query, PageParam) == Without(u.query, PageParam)
            && (forall k :: FirstNamedAt(u.query, PageParam, k) ==>
                  r.value.url.query == u.query[..k] + [Param(PageParam, "2")] + Without(u.query[k + 1..], PageParam))
            && ((forall j :: 0 <= j < |u.query| ==> u.query[j].name != PageParam) ==>
                  r.value.url.query == u.query + [Param(PageParam, "2")])
  {
    assert PageText(u) == "1";
    SmallNumeral(1, "1");
    SmallNumeral(2, "2");
    var q' := SetParam(u.query, PageParam, "2");
    assert IncrementPage(u) == Some(Parsed(Url(u.rest, q')));
    FallsBackToIncrement(nextLink, u, location);
    SetParamFacts(u.query, PageParam, "2");
    forall k | FirstNamedAt(u.query, PageParam, k)
      ensures q' == u.query[..k] + [Param(PageParam, "2")] + Without(u.query[k + 1..], PageParam)
    {
      SetParamInPlace(u.query, PageParam, "2", k);
    }
    if forall j :: 0 <= j < |u.query| ==> u.query[j].name != PageParam {
      SetParamAppends(u.query, PageParam, "2");
    }
  }

  /** Without a usable next link, a `page` that `parseInt` reads as `n` gives
      the base URL whose `page` reads back as `n + 1`, in the place of the
      first `page`, the other parameters kept. */
  lemma NumericPageIncrements(nextLink: Option<Href>, u: Url, location: Href, n: int)
    requires !(nextLink.Some? && HrefTruthy(nextLink.value))
    requires Truthy(GetParam(u.query, PageParam))
    requires ParseInt(GetParam(u.query, PageParam).value) == Some(n)
    ensures var r := DetectNextUrl(nextLink, Parsed(u), location);
            && r.Some? && r.value.Parsed? && r.value.url.rest == u.rest
            && GetParam(r.value.url.query, PageParam) == Some(IntToString(n + 1))
            && ParseInt(GetParam(r.value.url.query, PageParam).value) == Some(n + 1)
            && Without(r.value.url.query, PageParam) == Without(u.query, PageParam)
            && forall k :: FirstNamedAt(u.query, PageParam, k) ==>
                 r.value.url.query == u.query[..k] + [Param(PageParam, IntToString(n + 1))]
                                      + Without(u.query[k + 1..], PageParam)
  {
    SetParamFacts(u.query, PageParam, IntToString(n + 1));
    ParseIntOfIntToString(n + 1);
    forall k | FirstNamedAt(u.query, PageParam, k)
      ensures SetParam(u.query, PageParam, IntToString(n + 1))
              == u.query[..k] + [Param(PageParam, IntToString(n + 1))] + Without(u.query[k + 1..], PageParam)
    {
      SetParamInPlace(u.query, PageParam, IntToString(n + 1), k);
    }
  }

  /** Without a usable next link, a non-empty `page` that is not a number gives null. */
  lemma NonNumericPageGivesNull(nextLink: Option<Href>, u: Url, location: Href)
    requires !(nextLink.Some? && HrefTruthy(nextLink.value))
    requires Truthy(GetParam(u.query, PageParam))
    requires ParseInt(GetParam(u.query, PageParam).value).None?
    ensures DetectNextUrl(nextLink, Parsed(u), location) == None
  {
  }

  lemma IncrementPageOf(u: Url, n: int)
    requires ParseInt(PageText(u)) == Some(n)
    ensures IncrementPage(u) == Some(Parsed(Url(u.rest, SetParam(u.query, PageParam, IntToString(n + 1)))))
  {
  }

  lemma SingleParamText(rest: string, value: string)
    requires value != ""
    ensures PageText(Url(rest, [Param(PageParam, value)])) == value
  {
    assert GetParam([Param(PageParam, value)], PageParam) == Some(value);
  }

  lemma SingleParamSet(value: string, value': string)
    ensures SetParam([Param(PageParam, value)], PageParam, value') == [Param(PageParam, value')]
  {
  }

  /** A URL whose only parameter is `page=String(n)`, on a page with no next
      link, leads to `page=String(n + 1)`. */
  lemma SinglePageParamIncrements(rest: string, n: int, location: Href)
    ensures DetectNextUrl(None, Parsed(Url(rest, [Param(PageParam, IntToString(n))])), location)
            == Some(Parsed(Url(rest, [Param(PageParam, IntToString(n + 1))])))
  {
    var u := Url(rest, [Param(PageParam, IntToString(n))]);
    SingleParamText(rest, IntToString(n));
    ParseIntOfIntToString(n);
    IncrementPageOf(u, n);
    SingleParamSet(IntToString(n), IntToString(n + 1));
    FallsBackToIncrement(None, u, location);
  }

  /** `.../list?page=3` with no next link on the page gives `.../list?page=4`. */
  lemma PageThreeGivesPageFour(rest: string, location: Href)
    ensures DetectNextUrl(None, Parsed(Url(rest, [Param("page", "3")])), location)
            == Some(Parsed(Url(rest, [Param("page", "4")])))
  {
    SmallNumeral(3, "3");
    SmallNumeral(4, "4");
    SinglePageParamIncrements(rest, 3, location);
  }
}
