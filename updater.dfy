/**
 * The server-side controller (class Appointment_Updater): the shortcode
 * handler `run` with its one cached slot (a WordPress transient), the
 * clearing of that slot, the HTTP session parameters, and the requests to
 * the shop's REST API for products and for each product's variations.
 * HTTP itself is abstract: a Shop answers a request with a response or a
 * failure.
 */
module Updater {
  import opened Wrappers
  import opened Strings
  import opened Filtering
  import opened Admin

  /** The transient's name. */
  const CacheKey := "APPOINTMENTS_UPDATER_CACHE_QUERY_RESULTS"

  const DayInSeconds := 86400

  /** How long a fetched result stays cached. */
  const CacheTtl := 2 * DayInSeconds

  /** How many products `run` asks the shop for. */
  const ProductCount := 18

  /** trailingslashit('/wp-json/wc/v3/'): the path already ends in one slash. */
  const ApiPrefix := "/wp-json/wc/v3/"

  /** The dropdown choice that limits the page to three appointments. */
  const NextThree := "next-three-appointments"

  /** The element the browser script fills (two spaces before `class`, as emitted). */
  const ContainerOpen := "<div id=\"next-appointments\"  class=\"wrap\">"
  const ContainerClose := "</div>"
  const Container := ContainerOpen + ContainerClose

  /** The short endpoint of the product list. */
  const ProductsPath := "products"

  /** A product as the shop's product list returns it (the fields read here). */
  datatype Product = Product(id: nat, name: string)

  datatype Response = Response(statusCode: int, body: string)

  /** What one request yields: a response, or the library's Requests_Exception. */
  datatype HttpOutcome = RequestFailed | Received(response: Response)

  /** The session init_session_handler builds from the stored settings. */
  datatype Session = Session(
    baseUrl: Option<string>,
    contentType: string,
    consumerKey: Option<string>,
    consumerSecret: Option<string>,
    connectTimeout: nat,
    timeout: nat)

  /**
   * The shop behind the REST API: the answer to a GET of a path within a
   * session, whether a batch of requests throws as a whole, and json_decode
   * of a product list (None for null).
   */
  datatype Shop = Shop(
    get: (Session, string) -> HttpOutcome,
    batchFails: bool,
    decodeProducts: string -> Option<seq<Product>>)

  /** The cached value: one outcome per request key, in insertion order. */
  type Responses = seq<(string, HttpOutcome)>

  /** The transient: a value and the time after which it has expired. */
  datatype Transient = Transient(value: Responses, expiresAt: int)

  /** What the page hands the browser script as SCRIPT_DATA. */
  datatype PageScript = PageScript(variations: Responses, showAll: bool)

  // ---------------------------------------------------------------------------
  // Endpoints and request keys
  // ---------------------------------------------------------------------------

  /** build_api_endpoint: the API prefix followed by the trimmed short endpoint. */
  function BuildApiEndpoint(shortEndpoint: string): string {
    ApiPrefix + PhpTrim(shortEndpoint)
  }

  /** Every endpoint is the API prefix followed by a path without surrounding whitespace. */
  lemma EndpointShape(shortEndpoint: string)
    ensures var r := BuildApiEndpoint(shortEndpoint);
            && |r| >= |ApiPrefix| && r[..|ApiPrefix|] == ApiPrefix
            && var path := r[|ApiPrefix|..];
               path == [] || (!IsPhpSpace(path[0]) && !IsPhpSpace(path[|path| - 1]))
  {
  }

  /** Whitespace around the short endpoint never reaches the URL. */
  lemma EndpointIgnoresSpace(shortEndpoint: string)
    ensures BuildApiEndpoint(PhpTrim(shortEndpoint)) == BuildApiEndpoint(shortEndpoint)
  {
    TrimIdempotent(shortEndpoint, IsPhpSpace);
  }

  /** A short endpoint without surrounding whitespace is appended as written. */
  lemma EndpointAsWritten(shortEndpoint: string)
    requires shortEndpoint == [] || (!IsPhpSpace(shortEndpoint[0]) && !IsPhpSpace(shortEndpoint[|shortEndpoint| - 1]))
    ensures BuildApiEndpoint(shortEndpoint) == ApiPrefix + shortEndpoint
  {
    TrimUntouched(shortEndpoint, IsPhpSpace);
  }

  /** The product list request: products?per_page=n. */
  function ProductsUrl(n: nat): string {
    BuildApiEndpoint(ProductsPath) + "?per_page=" + NatToString(n)
  }

  /** The variations request of one product. */
  function VariationsUrl(p: Product): string {
    BuildApiEndpoint("products/" + NatToString(p.id) + "/variations")
  }

  /** The request id of one product: "{id}_x_{name}". */
  function RequestKey(p: Product): string {
    NatToString(p.id) + "_x_" + p.name
  }

  /** Both URLs are the API prefix followed by the path as written. */
  lemma UrlsAsWritten(n: nat, p: Product)
    ensures ProductsUrl(n) == ApiPrefix + ProductsPath + "?per_page=" + NatToString(n)
    ensures VariationsUrl(p) == ApiPrefix + "products/" + NatToString(p.id) + "/variations"
  {
    assert ProductsUrl(n) == ApiPrefix + ProductsPath + "?per_page=" + NatToString(n) by {
      EndpointAsWritten(ProductsPath);
    }
    var path := "products/" + NatToString(p.id) + "/variations";
    assert path[0] == 'p' && path[|path| - 1] == 's';
    EndpointAsWritten(path);
  }

  // ---------------------------------------------------------------------------
  // The requests array: a PHP array keyed by request id
  // ---------------------------------------------------------------------------

  /** The keys of an ordered key/value list. */
  function KeysOf<V>(entries: seq<(string, V)>): set<string>
    decreases |entries|
  {
    if entries == [] then {} else {entries[0].0} + KeysOf(entries[1..])
  }

  /** No key occurs twice. */
  predicate DistinctKeys<V>(entries: seq<(string, V)>)
    decreases |entries|
  {
    entries == [] || (entries[0].0 !in KeysOf(entries[1..]) && DistinctKeys(entries[1..]))
  }

  /** The value at a key, if any (the first entry with that key). */
  function Lookup<V>(entries: seq<(string, V)>, k: string): Option<V>
    decreases |entries|
  {
    if entries == [] then None
    else if entries[0].0 == k then Some(entries[0].1)
    else Lookup(entries[1..], k)
  }

  /**
   * $a[$k] = $v on a PHP array: an existing key keeps its position and gets
   * the new value; a new key goes to the end.
   */
  function Put<V>(entries: seq<(string, V)>, k: string, v: V): (r: seq<(string, V)>)
    ensures KeysOf(r) == KeysOf(entries) + {k}
    ensures |r| == if k in KeysOf(entries) then |entries| else |entries| + 1
    ensures DistinctKeys(entries) ==> DistinctKeys(r)
    decreases |entries|
  {
    if entries == [] then [(k, v)]
    else if entries[0].0 == k then
      assert ([(k, v)] + entries[1..])[1..] == entries[1..];
      [(k, v)] + entries[1..]
    else
      var rest := Put(entries[1..], k, v);
      assert ([entries[0]] + rest)[1..] == rest;
      [entries[0]] + rest
  }

  /** After $a[$k] = $v, the key reads v and every other key reads what it read before. */
  lemma {:induction false} PutLookup<V>(entries: seq<(string, V)>, k: string, v: V, other: string)
    ensures Lookup(Put(entries, k, v), k) == Some(v)
    ensures other != k ==> Lookup(Put(entries, k, v), other) == Lookup(entries, other)
    decreases |entries|
  {
    if entries != [] && entries[0].0 != k {
      PutLookup(entries[1..], k, v, other);
    }
  }

  /** The array built by assigning each (key, value) pair in turn. */
  function PutAll<V>(items: seq<(string, V)>): seq<(string, V)>
    decreases |items|
  {
    if items == [] then [] else Put(PutAll(items[..|items| - 1]), items[|items| - 1].0, items[|items| - 1].1)
  }

  /** Some assignment among the items is to key k. */
  predicate Assigns<V>(items: seq<(string, V)>, k: string) {
    exists i :: 0 <= i < |items| && items[i].0 == k
  }

  /**
   * One entry per distinct key, never more entries than assignments, and
   * exactly the keys assigned.
   */
  lemma {:induction false} PutAllKeys<V>(items: seq<(string, V)>)
    ensures DistinctKeys(PutAll(items))
    ensures |PutAll(items)| <= |items|
    ensures forall k :: k in KeysOf(PutAll(items)) <==> Assigns(items, k)
    decreases |items|
  {
    if items != [] {
      var init := items[..|items| - 1];
      PutAllKeys(init);
      forall k ensures Assigns(items, k) <==> Assigns(init, k) || k == items[|items| - 1].0 {
        if Assigns(items, k) {
          var i :| 0 <= i < |items| && items[i].0 == k;
          if i < |init| {
            assert init[i] == items[i];
          }
        }
        if Assigns(init, k) {
          var i :| 0 <= i < |init| && init[i].0 == k;
          assert items[i] == init[i];
        }
      }
    }
  }

  /** A key reads the value of its last assignment. */
  lemma {:induction false} PutAllLast<V>(items: seq<(string, V)>, i: nat)
    requires i < |items|
    requires forall j :: i < j < |items| ==> items[j].0 != items[i].0
    ensures Lookup(PutAll(items), items[i].0) == Some(items[i].1)
    decreases |items|
  {
    var n := |items| - 1;
    var init := items[..n];
    PutLookup(PutAll(init), items[n].0, items[n].1, items[i].0);
    if i < n {
      assert init[i] == items[i];
      PutAllLast(init, i);
    }
  }

  /** The request a product contributes: its key and its variations URL. */
  function RequestOf(p: Product): (string, string) {
    (RequestKey(p), VariationsUrl(p))
  }

  /** The requests array get_variations_of_all_products builds, one product at a time. */
  function RequestsFor(products: seq<Product>): seq<(string, string)> {
    PutAll(Map(products, RequestOf))
  }

  /**
   * One request per distinct "{id}_x_{name}" key, never more requests than
   * products, and every product's key present.
   */
  lemma RequestsForProducts(products: seq<Product>)
    ensures var requests := RequestsFor(products);
            && DistinctKeys(requests)
            && |requests| <= |products|
            && (forall k :: k in KeysOf(requests) <==> exists j :: 0 <= j < |products| && RequestKey(products[j]) == k)
  {
    var items := Map(products, RequestOf);
    PutAllKeys(items);
    forall k ensures Assigns(items, k) <==> exists j :: 0 <= j < |products| && RequestKey(products[j]) == k {
      if exists j :: 0 <= j < |products| && RequestKey(products[j]) == k {
        var j :| 0 <= j < |products| && RequestKey(products[j]) == k;
        assert items[j].0 == k;
      }
    }
  }

  /** The URL at a product's key is that of the LAST product with that key (a repeated key overwrites). */
  lemma RequestsLastWins(products: seq<Product>, i: nat)
    requires i < |products|
    requires forall j :: i < j < |products| ==> RequestKey(products[j]) != RequestKey(products[i])
    ensures Lookup(RequestsFor(products), RequestKey(products[i])) == Some(VariationsUrl(products[i]))
  {
    PutAllLast(Map(products, RequestOf), i);
  }

  // ---------------------------------------------------------------------------
  // Responses
  // ---------------------------------------------------------------------------

  /**
   * get_products after the GET: [] on a failure or a status other than 200,
   * otherwise the decoded body (None when json_decode gives null).
   */
  function ProductsFrom(outcome: HttpOutcome, decode: string -> Option<seq<Product>>): (r: Option<seq<Product>>)
    ensures outcome.Received? && outcome.response.statusCode == 200 ==> r == decode(outcome.response.body)
    ensures outcome.RequestFailed? || outcome.response.statusCode != 200 ==> r == Some([])
  {
    match outcome
    case RequestFailed => Some([])
    case Received(response) => if response.statusCode != 200 then Some([]) else decode(response.body)
  }

  /** request_multiple: every request's outcome under its key, in the order of the requests. */
  function Dispatch(session: Session, shop: Shop, requests: seq<(string, string)>): (r: Responses)
    ensures |r| == |requests|
    ensures forall i :: 0 <= i < |r| ==> r[i] == (requests[i].0, shop.get(session, requests[i].1))
  {
    Map(requests, (request: (string, string)) => (request.0, shop.get(session, request.1)))
  }

  /**
   * What get_variations_of_all_products returns: nothing for a null or empty
   * product list or a batch that throws, otherwise the raw outcome of each
   * request.
   */
  function VariationResponses(session: Session, shop: Shop, products: Option<seq<Product>>): Responses {
    if products == None || products == Some([]) then []
    else if shop.batchFails then []
    else Dispatch(session, shop, RequestsFor(products.value))
  }

  /**
   * The cached value is nothing without products; otherwise it is the
   * requests array with each URL replaced by the shop's raw answer to it,
   * under the same key and in the same order.
   */
  lemma VariationResponsesShape(session: Session, shop: Shop, products: Option<seq<Product>>)
    ensures products == None || products == Some([]) || shop.batchFails ==> VariationResponses(session, shop, products) == []
    ensures products.Some? && products != Some([]) && !shop.batchFails ==>
            var r, requests := VariationResponses(session, shop, products), RequestsFor(products.value);
            && |r| == |requests|
            && (forall i :: 0 <= i < |r| ==> r[i].0 == requests[i].0 && r[i].1 == shop.get(session, requests[i].1))
  {
  }

  /** What request_complete_callback returns for one finished request. */
  datatype CallbackResult = NoVariations | RawBody(body: string)

  /**
   * request_complete_callback: [] for a failure or a status other than 200,
   * otherwise the raw body. It never replaces the request it is given, and
   * the library ignores what it returns, so the cache holds the raw outcomes
   * (VariationResponsesShape).
   */
  function RequestCompleteCallback(req: HttpOutcome): (r: CallbackResult)
    ensures r.RawBody? <==> req.Received? && req.response.statusCode == 200
    ensures r.RawBody? ==> r.body == req.response.body
  {
    if req.RequestFailed? || req.response.statusCode != 200 then NoVariations
    else RawBody(req.response.body)
  }

  // ---------------------------------------------------------------------------
  // Settings read by the controller
  // ---------------------------------------------------------------------------

  /** init_session_handler's session: base URL and credentials from the settings, 30-second timeouts. */
  function SessionFor(row: Option<Options>): Session {
    Session(
      GetOptionFor(row, BaseUrl), "application/json",
      GetOptionFor(row, ConsumerKey), GetOptionFor(row, ConsumerSecret), 30, 30)
  }

  /** SHOW_ALL: the dropdown setting is not (identical to) 'next-three-appointments'. */
  predicate ShowAll(row: Option<Options>) {
    GetOptionFor(row, AppointmentsDropdown) != Some(NextThree)
  }

  /** Only a stored 'next-three-appointments' limits the page; a missing row or setting shows all. */
  lemma ShowAllUnlessNextThree(row: Option<Options>)
    ensures !ShowAll(row) <==> row.Some? && AppointmentsDropdown in row.value && row.value[AppointmentsDropdown] == NextThree
  {
    TrimUntouched(AppointmentsDropdown, IsPhpSpace);
  }

  /** The cached value, while the transient has not expired. */
  function Live(slot: Option<Transient>, now: int): (r: Option<Responses>)
    ensures r.Some? <==> slot.Some? && now <= slot.value.expiresAt
    ensures r.Some? ==> r.value == slot.value.value
  {
    if slot.Some? && now <= slot.value.expiresAt then Some(slot.value.value) else None
  }

  /** What a cache miss fetches: the variations of up to 18 products. */
  function Fetched(session: Session, shop: Shop): Responses {
    var products := ProductsFrom(shop.get(session, ProductsUrl(ProductCount)), shop.decodeProducts);
    VariationResponses(session, shop, products)
  }

  /** A value stored at `now` is served until two days later and not after. */
  lemma StoredValueServed(value: Responses, now: int, later: int)
    ensures Live(Some(Transient(value, now + CacheTtl)), later) == (if later <= now + 2 * 86400 then Some(value) else None)
  {
  }

  /**
   * The tail of run: '' without page data for a missing (false) or empty
   * value, otherwise the container, with the value and SHOW_ALL handed to the
   * browser script.
   */
  function Page(nextAppointments: Option<Responses>, showAll: bool): (r: (string, Option<PageScript>))
    ensures r.1.Some? <==> nextAppointments.Some? && nextAppointments.value != []
    ensures r.1.Some? ==> r.0 == Container && r.1.value == PageScript(nextAppointments.value, showAll)
    ensures r.1.None? ==> r.0 == ""
  {
    if nextAppointments == None || nextAppointments == Some([]) then ("", None)
    else (ContainerOpen + ContainerClose, Some(PageScript(nextAppointments.value, showAll)))
  }

  /**
   * As written, a miss renders nothing even when the fetch found appointments;
   * rendering what was just fetched shows them.
   */
  lemma MissRendersNothing(fetched: Responses, showAll: bool)
    requires fetched != []
    ensures Page(None, showAll) == ("", None)
    ensures Page(Some(fetched), showAll) == (Container, Some(PageScript(fetched, showAll)))
  {
  }

  /** The plugin's controller: the request session and the transient slot. */
  class AppointmentUpdater {
    var session: Session
    var slot: Option<Transient>

    /** The first instance: a session from the settings; the slot as the site has it. */
    constructor (row: Option<Options>, stored: Option<Transient>)
      ensures session == SessionFor(row) && slot == stored
    {
      session := SessionFor(row);
      slot := stored;
    }

    /** init_session_handler: a new session from the current settings. */
    method InitSessionHandler(row: Option<Options>)
      modifies this
      ensures session == SessionFor(row) && slot == old(slot)
    {
      session := SessionFor(row);
    }

    /** clear_cache: deletes the transient and rebuilds the session; the next run is a miss. */
    method ClearCache(row: Option<Options>)
      modifies this
      ensures slot == None && session == SessionFor(row)
      ensures forall now :: Live(slot, now) == None
    {
      slot := None;
      InitSessionHandler(row);
    }

    /** get_products: one GET of the product list within the session. */
    method GetProducts(numOfProducts: nat, shop: Shop) returns (products: Option<seq<Product>>)
      ensures products == ProductsFrom(shop.get(session, ProductsUrl(numOfProducts)), shop.decodeProducts)
    {
      var url := BuildApiEndpoint(ProductsPath);
      var queryParams := "?per_page=" + NatToString(numOfProducts);
      assert url + queryParams == ProductsUrl(numOfProducts);
      var response := shop.get(session, url + queryParams);
      match response
      case RequestFailed =>
        products := Some([]);
      case Received(r) =>
        if r.statusCode != 200 {
          products := Some([]);
        } else {
          products := shop.decodeProducts(r.body);
        }
    }

    /**
     * get_variations_of_all_products: a foreach building the requests array,
     * then one batch of requests whose raw outcomes are returned.
     */
    method GetVariationsOfAllProducts(products: Option<seq<Product>>, shop: Shop) returns (responses: Responses)
      ensures responses == VariationResponses(session, shop, products)
    {
      if products == None || products == Some([]) {
        return [];
      }
      var ps := products.value;
      var requests: seq<(string, string)> := [];
      for i := 0 to |ps|
        invariant requests == RequestsFor(ps[..i])
      {
        var variationUrlPerProd := BuildApiEndpoint("products/" + NatToString(ps[i].id) + "/variations");
        ghost var items := Map(ps[..i + 1], RequestOf);
        assert items[..i] == Map(ps[..i], RequestOf);
        assert items[i] == (NatToString(ps[i].id) + "_x_" + ps[i].name, variationUrlPerProd);
        requests := Put(requests, NatToString(ps[i].id) + "_x_" + ps[i].name, variationUrlPerProd);
      }
      assert ps[..|ps|] == ps;
      if shop.batchFails {
        responses := [];
      } else {
        responses := Dispatch(session, shop, requests);
      }
    }

    /**
     * run as written: on a miss, fetches and stores the variations for two
     * days but renders the value it read (false), so it returns '' without
     * page data; on a hit, renders the stored value. The session never
     * changes.
     */
    method Run(row: Option<Options>, now: int, shop: Shop) returns (content: string, script: Option<PageScript>)
      modifies this
      ensures session == old(session)
      ensures Live(old(slot), now) == None ==>
        && slot == Some(Transient(Fetched(session, shop), now + CacheTtl))
        && content == "" && script == None
      ensures Live(old(slot), now).Some? ==>
        var value := Live(old(slot), now).value;
        && slot == old(slot)
        && (value == [] ==> content == "" && script == None)
        && (value != [] ==> content == Container && script == Some(PageScript(value, ShowAll(row))))
    {
      var nextAppointments := Live(slot, now);
      if nextAppointments == None {
        var products := GetProducts(ProductCount, shop);
        var variations := GetVariationsOfAllProducts(products, shop);
        slot := Some(Transient(variations, now + CacheTtl));
      }
      var showAll := GetOptionFor(row, AppointmentsDropdown) != Some(NextThree);
      content, script := Page(nextAppointments, showAll).0, Page(nextAppointments, showAll).1;
    }

    /**
     * run as evidently intended: a miss renders the variations it has just
     * fetched and stored, so every call renders the value the cache holds
     * afterwards.
     */
    method RunIntended(row: Option<Options>, now: int, shop: Shop) returns (content: string, script: Option<PageScript>)
      modifies this
      ensures session == old(session)
      ensures Live(old(slot), now) == None ==> slot == Some(Transient(Fetched(session, shop), now + CacheTtl))
      ensures Live(old(slot), now).Some? ==> slot == old(slot)
      ensures var value := slot.value.value;
        && (value == [] ==> content == "" && script == None)
        && (value != [] ==> content == Container && script == Some(PageScript(value, ShowAll(row))))
    {
      var nextAppointments := Live(slot, now);
      if nextAppointments == None {
        var products := GetProducts(ProductCount, shop);
        var variations := GetVariationsOfAllProducts(products, shop);
        slot := Some(Transient(variations, now + CacheTtl));
        nextAppointments := Some(variations);
      }
      var showAll := GetOptionFor(row, AppointmentsDropdown) != Some(NextThree);
      content, script := Page(nextAppointments, showAll).0, Page(nextAppointments, showAll).1;
    }
  }
}
