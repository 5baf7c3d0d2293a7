/** The registry lookup of utils/dgii.py: reading the hidden form tokens of
    the search page, the gate on `__VIEWSTATE`, the asynchronous postback
    (form fields and headers) and the scraper that turns the rows of the
    result table into a key/value map. The two HTTP exchanges are outside
    the model: the page arrives already reduced to its hidden inputs, the
    result table already reduced to rows of cell texts. */
module Dgii {
  import opened Wrappers
  import opened Builtins

  /** The registry's search page; both requests go to it. */
  const URL := "https://dgii.gov.do/app/WebApps/ConsultasWeb2/ConsultasWeb/consultas/rnc.aspx"

  /** The mobile-browser user agent sent with the page request. */
  const USER_AGENT := "Mozilla/5.0 (Linux; Android 6.0; Nexus 5 Build/MRA58N) AppleWebKit/537.36 (KHTML, like Gecko) Chrome/135.0.0.0 Mobile Safari/537.36"

  const VIEWSTATE := "__VIEWSTATE"
  const VIEWSTATEGENERATOR := "__VIEWSTATEGENERATOR"
  const EVENTVALIDATION := "__EVENTVALIDATION"

  /** The form field that carries the RNC being looked up. */
  const RNC_FIELD := "ctl00$cphMain$txtRNCCedula"

  /** The search button, named as the postback's event target. */
  const SEARCH_BUTTON := "ctl00$cphMain$btnBuscarPorRNC"

  /** The script manager field: the update panel and the button. */
  const SCRIPT_MANAGER := "ctl00$cphMain$upBusqueda|ctl00$cphMain$btnBuscarPorRNC"

  // ------------------------------------------------------------ form tokens

  /** The first `<input>` of each name on the search page: `Some(v)` when
      it has a `value` attribute `v`, `None` when it has none. A name that
      is not a key has no input on the page. */
  type Page = map<string, Option<string>>

  datatype LookupError =
    | MissingValue(name: string)  // the input exists but `tag["value"]` has no value attribute
    | ViewStateNotFound           // the page came back without a usable `__VIEWSTATE`

  /** `tag["value"]` can be read: the input is absent, or it has the attribute. */
  predicate Readable(page: Page, name: string) {
    name !in page || page[name].Some?
  }

  /** The token a readable input yields: its value, or `""` when absent. */
  function Token(page: Page, name: string): string {
    if name in page && page[name].Some? then page[name].value else ""
  }

  /** `get_val`: an absent input yields `""`, an input with a value yields
      that value, and an input without a value attribute is an error. */
  function GetVal(page: Page, name: string): (r: Result<string, LookupError>)
    ensures r.Success? <==> Readable(page, name)
    ensures r.Success? ==> r.value == Token(page, name)
    ensures name !in page ==> r == Success("")
    ensures r.Failure? ==> r.error == MissingValue(name)
  {
    if name !in page then Success("")
    else match page[name]
      case Some(v) => Success(v)
      case None => Failure(MissingValue(name))
  }

  // --------------------------------------------------------------- postback

  /** The form fields and headers of the asynchronous search request. */
  datatype Postback = Postback(payload: map<string, string>, headers: map<string, string>)

  function Payload(rnc: string, viewstate: string, generator: string, validation: string): map<string, string> {
    map[
      "ctl00$smMain" := SCRIPT_MANAGER,
      RNC_FIELD := rnc,
      "ctl00$cphMain$txtRazonSocial" := "",
      "ctl00$cphMain$hidActiveTab" := "",
      "__EVENTTARGET" := SEARCH_BUTTON,
      "__EVENTARGUMENT" := "",
      "__LASTFOCUS" := "",
      VIEWSTATE := viewstate,
      VIEWSTATEGENERATOR := generator,
      EVENTVALIDATION := validation,
      "__ASYNCPOST" := "true"
    ]
  }

  /** The headers of a partial-page postback, keeping the page request's
      user agent and naming the page itself as referrer. */
  function AjaxHeaders(): map<string, string> {
    map[
      "X-MicrosoftAjax" := "Delta=true",
      "X-Requested-With" := "XMLHttpRequest",
      "User-Agent" := USER_AGENT,
      "Referer" := URL,
      "Content-Type" := "application/x-www-form-urlencoded; charset=UTF-8"
    ]
  }

  /** The part of `consulta_rnc` between the two requests: read the three
      tokens in order, refuse an empty `__VIEWSTATE`, and build the
      postback. It fails exactly when a token cannot be read or
      `__VIEWSTATE` is empty, and reports the first failure. */
  function PreparePostback(rnc: string, page: Page): (r: Result<Postback, LookupError>)
    ensures r.Success? <==>
      && Readable(page, VIEWSTATE) && Readable(page, VIEWSTATEGENERATOR) && Readable(page, EVENTVALIDATION)
      && Token(page, VIEWSTATE) != ""
    ensures !Readable(page, VIEWSTATE) ==> r == Failure(MissingValue(VIEWSTATE))
    ensures Readable(page, VIEWSTATE) && !Readable(page, VIEWSTATEGENERATOR) ==>
      r == Failure(MissingValue(VIEWSTATEGENERATOR))
    ensures Readable(page, VIEWSTATE) && Readable(page, VIEWSTATEGENERATOR) && !Readable(page, EVENTVALIDATION) ==>
      r == Failure(MissingValue(EVENTVALIDATION))
    ensures r.Failure? && r.error == ViewStateNotFound <==>
      && Readable(page, VIEWSTATE) && Readable(page, VIEWSTATEGENERATOR) && Readable(page, EVENTVALIDATION)
      && Token(page, VIEWSTATE) == ""
  {
    var viewstate :- GetVal(page, VIEWSTATE);
    var generator :- GetVal(page, VIEWSTATEGENERATOR);
    var validation :- GetVal(page, EVENTVALIDATION);
    if viewstate == "" then Failure(ViewStateNotFound)
    else Success(Postback(Payload(rnc, viewstate, generator, validation), AjaxHeaders()))
  }

  /** The postback carries the RNC and the three tokens unchanged under
      their own names, the fixed event fields, and nothing else. */
  lemma PostbackPayload(rnc: string, page: Page)
    requires PreparePostback(rnc, page).Success?
    ensures var p := PreparePostback(rnc, page).value.payload;
      && p[RNC_FIELD] == rnc
      && VIEWSTATE in page && p[VIEWSTATE] == page[VIEWSTATE].value
      && p[VIEWSTATEGENERATOR] == Token(page, VIEWSTATEGENERATOR)
      && p[EVENTVALIDATION] == Token(page, EVENTVALIDATION)
      && p["__EVENTTARGET"] == SEARCH_BUTTON
      && p["__ASYNCPOST"] == "true"
      && p["ctl00$smMain"] == SCRIPT_MANAGER
      && p.Keys == PAYLOAD_FIELDS
  {
    var vs, gen, ev := Token(page, VIEWSTATE), Token(page, VIEWSTATEGENERATOR), Token(page, EVENTVALIDATION);
    assert PreparePostback(rnc, page).value.payload == Payload(rnc, vs, gen, ev);
    PayloadKeys(rnc, vs, gen, ev);
  }

  /** The eleven form fields of the postback. */
  const PAYLOAD_FIELDS: set<string> := {
    "ctl00$smMain", RNC_FIELD, "ctl00$cphMain$txtRazonSocial", "ctl00$cphMain$hidActiveTab",
    "__EVENTTARGET", "__EVENTARGUMENT", "__LASTFOCUS",
    VIEWSTATE, VIEWSTATEGENERATOR, EVENTVALIDATION, "__ASYNCPOST"
  }

  lemma PayloadKeys(rnc: string, viewstate: string, generator: string, validation: string)
    ensures Payload(rnc, viewstate, generator, validation).Keys == PAYLOAD_FIELDS
  {
  }

  /** The postback's headers reuse the page request's user agent and
      refer to the page. */
  lemma PostbackHeaders(rnc: string, page: Page)
    requires PreparePostback(rnc, page).Success?
    ensures var h := PreparePostback(rnc, page).value.headers;
      h["User-Agent"] == USER_AGENT && h["Referer"] == URL && h["X-MicrosoftAjax"] == "Delta=true"
  {
  }

  /** Empty generator and validation tokens, present or absent, do not
      block the postback; they are sent as `""`. */
  lemma EmptyTokensDoNotBlock(rnc: string, page: Page, viewstate: string)
    requires viewstate != "" && VIEWSTATE in page && page[VIEWSTATE] == Some(viewstate)
    requires VIEWSTATEGENERATOR !in page || page[VIEWSTATEGENERATOR] == Some("")
    requires EVENTVALIDATION !in page || page[EVENTVALIDATION] == Some("")
    ensures var r := PreparePostback(rnc, page);
      r.Success? && r.value.payload[VIEWSTATEGENERATOR] == "" && r.value.payload[EVENTVALIDATION] == ""
  {
    PostbackPayload(rnc, page);
  }

  /** A page without a `__VIEWSTATE` input fails at the gate, as does one
      whose `__VIEWSTATE` is empty. */
  lemma AbsentViewStateFails(rnc: string, page: Page)
    requires VIEWSTATE !in page || page[VIEWSTATE] == Some("")
    requires Readable(page, VIEWSTATEGENERATOR) && Readable(page, EVENTVALIDATION)
    ensures PreparePostback(rnc, page) == Failure(ViewStateNotFound)
  {
  }

  // ----------------------------------------------------------------- scraper

  /** A left cell's text as a key: every `:` deleted, whitespace collapsed. */
  function CleanKey(text: string): (k: string)
    ensures ':' !in k && IsCollapsed(k)
    ensures NonSpace(k) == NonSpace(Remove(text, ':'))
    ensures Split(k) == Split(Remove(text, ':'))
  {
    var stripped := Remove(text, ':');
    RemoveSpec(text, ':');
    Collapse(stripped)
  }

  /** A right cell's text as a value: whitespace collapsed, every other
      character kept in order. */
  function CleanValue(text: string): (v: string)
    ensures IsCollapsed(v)
    ensures NonSpace(v) == NonSpace(text)
    ensures Split(v) == Split(text)
  {
    Collapse(text)
  }

  /** Cleaning a clean key again leaves it unchanged. */
  lemma CleanKeyIdempotent(text: string)
    ensures CleanKey(CleanKey(text)) == CleanKey(text)
  {
    var k := CleanKey(text);
    RemoveAbsent(k, ':');
    CollapseFixpoint(k);
  }

  /** Cleaning a clean value again leaves it unchanged. */
  lemma CleanValueIdempotent(text: string)
    ensures CleanValue(CleanValue(text)) == CleanValue(text)
  {
    CollapseIdempotent(text);
  }

  /** A value keeps every colon of its cell, and an already collapsed
      value is kept as it is. */
  lemma CleanValueKeepsColons(text: string)
    ensures multiset(CleanValue(text))[':'] == multiset(text)[':']
    ensures IsCollapsed(text) ==> CleanValue(text) == text
  {
    var v := CleanValue(text);
    NonSpaceCount(v, ':');
    NonSpaceCount(text, ':');
    CollapseFixpoint(text);
  }

  /** A key keeps every character of its cell other than colons and
      whitespace, as often as it occurs there. */
  lemma CleanKeyKeepsText(text: string, c: char)
    requires c != ':' && !IsSpace(c)
    ensures multiset(CleanKey(text))[c] == multiset(text)[c]
  {
    var k := CleanKey(text);
    NonSpaceCount(k, c);
    NonSpaceCount(Remove(text, ':'), c);
    RemoveCount(text, ':', c);
  }

  /** The map built from the rows seen so far: each two-cell row stores its
      cleaned texts, overwriting an earlier entry with the same key; every
      other row is skipped. */
  function ScrapeRows(rows: seq<seq<string>>): map<string, string> {
    if rows == [] then map[]
    else
      var data := ScrapeRows(rows[..|rows| - 1]);
      var row := rows[|rows| - 1];
      if |row| == 2 then data[CleanKey(row[0]) := CleanValue(row[1])] else data
  }

  /** The result of a page: no entries when it has no result table. */
  function Scrape(table: Option<seq<seq<string>>>): map<string, string> {
    match table
    case None => map[]
    case Some(rows) => ScrapeRows(rows)
  }

  /** The cleaned left-cell texts of the two-cell rows. */
  function PairKeys(rows: seq<seq<string>>): set<string> {
    set i | 0 <= i < |rows| && |rows[i]| == 2 :: CleanKey(rows[i][0])
  }

  /** The keys of the result are exactly the cleaned left cells of the
      two-cell rows. */
  lemma {:induction false} ScrapeKeys(rows: seq<seq<string>>)
    ensures ScrapeRows(rows).Keys == PairKeys(rows)
  {
    if rows != [] {
      var init := rows[..|rows| - 1];
      ScrapeKeys(init);
      var last := |rows| - 1;
      forall k | k in PairKeys(rows)
        ensures k in ScrapeRows(rows)
      {
        var i :| 0 <= i < |rows| && |rows[i]| == 2 && CleanKey(rows[i][0]) == k;
        if i < last {
          assert init[i] == rows[i];
          assert k in PairKeys(init);
        }
      }
      forall k | k in ScrapeRows(rows)
        ensures k in PairKeys(rows)
      {
        if k in PairKeys(init) {
          var i :| 0 <= i < |init| && |init[i]| == 2 && CleanKey(init[i][0]) == k;
          assert rows[i] == init[i];
        } else {
          assert |rows[last]| == 2 && CleanKey(rows[last][0]) == k;
        }
      }
    }
  }

  /** The later of two rows with the same cleaned key wins: a two-cell row
      that no later two-cell row shares a key with gives its key's value. */
  lemma {:induction false} ScrapeLastWins(rows: seq<seq<string>>, i: nat)
    requires i < |rows| && |rows[i]| == 2
    requires forall j :: i < j < |rows| && |rows[j]| == 2 ==> CleanKey(rows[j][0]) != CleanKey(rows[i][0])
    ensures CleanKey(rows[i][0]) in ScrapeRows(rows)
    ensures ScrapeRows(rows)[CleanKey(rows[i][0])] == CleanValue(rows[i][1])
  {
    var last := |rows| - 1;
    var key := CleanKey(rows[i][0]);
    if i < last {
      var init := rows[..last];
      assert init[i] == rows[i];
      ScrapeLastWins(init, i);
      assert |rows[last]| == 2 ==> CleanKey(rows[last][0]) != key;
    }
  }

  /** A row with other than two cells changes nothing, wherever it is. */
  lemma {:induction false} ScrapeIgnoresOtherRows(before: seq<seq<string>>, row: seq<string>, after: seq<seq<string>>)
    requires |row| != 2
    ensures ScrapeRows(before + [row] + after) == ScrapeRows(before + after)
  {
    var rows := before + [row] + after;
    if after == [] {
      assert rows[..|rows| - 1] == before;
      assert before + after == before;
    } else {
      var init := after[..|after| - 1];
      ScrapeIgnoresOtherRows(before, row, init);
      assert rows[..|rows| - 1] == before + [row] + init;
      assert (before + after)[..|before + after| - 1] == before + init;
      assert rows[|rows| - 1] == (before + after)[|before + after| - 1];
    }
  }

  /** `parse_dgii_response`, from the point where the result table has been
      located (`None` when the page has none) and each row reduced to the
      stripped texts of its cells. */
  method ParseDgiiResponse(table: Option<seq<seq<string>>>) returns (data: map<string, string>)
    ensures data == Scrape(table)
    ensures table.None? ==> data == map[]
    ensures table.Some? ==> data.Keys == PairKeys(table.value)
    ensures forall k :: k in data ==> ':' !in k && IsCollapsed(k) && IsCollapsed(data[k])
  {
    data := map[];
    if table.Some? {
      var rows := table.value;
      for i := 0 to |rows|
        invariant data == ScrapeRows(rows[..i])
        invariant forall k :: k in data ==> ':' !in k && IsCollapsed(k) && IsCollapsed(data[k])
      {
        assert rows[..i + 1][..i] == rows[..i];
        var cells := rows[i];
        if |cells| == 2 {
          var key := CleanKey(cells[0]);
          var val := CleanValue(cells[1]);
          data := data[key := val];
        }
      }
      assert rows[..|rows|] == rows;
      ScrapeKeys(rows);
    }
  }

  /** `consulta_rnc` with its two requests supplied: `page` is the search
      page's hidden inputs as fetched, and `server` answers a postback with
      the result table it finds (or `None`). A failed gate is reported;
      otherwise the answer is scraped. */
  method ConsultaRnc(rnc: string, page: Page, server: Postback -> Option<seq<seq<string>>>)
    returns (r: Result<map<string, string>, LookupError>)
    ensures PreparePostback(rnc, page).Failure? ==> r == Failure(PreparePostback(rnc, page).error)
    ensures PreparePostback(rnc, page).Success? ==>
      r == Success(Scrape(server(PreparePostback(rnc, page).value)))
  {
    var postback := PreparePostback(rnc, page);
    if postback.Failure? {
      return Failure(postback.error);
    }
    var answer := server(postback.value);
    var data := ParseDgiiResponse(answer);
    return Success(data);
  }
}
