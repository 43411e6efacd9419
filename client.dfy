/**
 * The browser-side script (appointment-updater-helpers.js): it reads the
 * cached responses the page hands it as SCRIPT_DATA, cleans each product's
 * variations again, keeps the earliest appointment of every product and
 * renders the first entries. Its normalize_date and its test for individual
 * appointments differ from the server's (see AgreesWithServer and the
 * lemmas after it).
 */
module ClientHelpers {
  import opened Wrappers
  import opened Strings
  import opened Skus
  import opened Sorting
  import opened Dedup
  import opened Filtering
  import Helpers
  import Updater

  /** The object clean_product_variations pushes; productName is undefined (None) when the key has no "_x_". */
  datatype ClientAppointment = ClientAppointment(
    productId: string,
    productName: Option<string>,
    skuDate: string,
    reversedSkuDate: string,
    permalink: string)

  // ---------------------------------------------------------------------------
  // normalize_date
  // ---------------------------------------------------------------------------

  /** myDate.substring(0, indexOf('(')): everything before the first '(', wherever it is. */
  function JsBeforeParenthesis(sku: string): (r: string)
    ensures |r| <= |sku| && r == sku[..|r|]
    ensures '(' !in r
    ensures |r| < |sku| ==> sku[|r|] == '('
  {
    var endIndex := CharIndex(sku, '(');
    if endIndex == -1 then sku else sku[..endIndex]
  }

  /** The first en-dash turned into '-', then split on '-'. */
  function JsDateTokens(sku: string): (tokens: seq<string>)
    ensures |tokens| >= 1
    ensures forall k :: 0 <= k < |tokens| ==> '-' !in tokens[k]
  {
    var dashed := ReplaceFirst(JsBeforeParenthesis(sku), EnDash, '-');
    SplitCharNoSep(dashed, '-');
    Split(dashed, "-")
  }

  /**
   * Every trimmed token has a third '.'-part; otherwise `date[2].length`
   * throws a TypeError and the script stops.
   */
  predicate WellFormedSku(sku: string) {
    forall k :: 0 <= k < |JsDateTokens(sku)| ==> HasDayMonthYear(JsTrim(JsDateTokens(sku)[k]))
  }

  /** The display form of one token (JavaScript trim). */
  function JsTokenDisplay(token: string): string {
    DisplayOf(JsTrim(token))
  }

  /** The sortable form of one token (JavaScript trim). */
  function JsTokenSortable(token: string): string {
    ReversedOf(JsTrim(token))
  }

  /** What normalize_date returns: all display forms joined with " - ", and the first date's sortable form alone. */
  function JsNormalizedDate(sku: string): (string, string) {
    var tokens := JsDateTokens(sku);
    (Join(Map(tokens, JsTokenDisplay), " - "), JsTokenSortable(tokens[0]))
  }

  /** normalize_date: the forEach over the tokens, pushing both forms of each. */
  method NormalizeDateJs(myDate: string) returns (display: string, sortable: string)
    requires WellFormedSku(myDate)
    ensures (display, sortable) == JsNormalizedDate(myDate)
  {
    var normalizedDates: seq<string> := [];
    var reversedNormalizeDates: seq<string> := [];
    var endIndex := CharIndex(myDate, '(');
    var date := if endIndex == -1 then myDate else myDate[..endIndex];
    var dates := Split(ReplaceFirst(date, EnDash, '-'), "-");
    assert dates == JsDateTokens(myDate);
    for i := 0 to |dates|
      invariant normalizedDates == Map(dates[..i], JsTokenDisplay)
      invariant reversedNormalizeDates == Map(dates[..i], JsTokenSortable)
    {
      var shown, reversed := NormalizeToken(dates[i]);
      MapSnoc(dates, i, JsTokenDisplay);
      MapSnoc(dates, i, JsTokenSortable);
      normalizedDates := normalizedDates + [shown];
      reversedNormalizeDates := reversedNormalizeDates + [reversed];
    }
    assert dates[..|dates|] == dates;
    display := Join(normalizedDates, " - ");
    sortable := reversedNormalizeDates[0];
  }

  /** The forEach callback of normalize_date: both forms of one token. */
  method NormalizeToken(date: string) returns (shown: string, reversed: string)
    requires HasDayMonthYear(JsTrim(date))
    ensures shown == JsTokenDisplay(date) && reversed == JsTokenSortable(date)
  {
    var token := JsTrim(date);
    var parts := Split(token, ".");
    if |parts[2]| == 2 {
      parts := parts[2 := "20" + parts[2]];
    }
    WidenedParts(token);
    shown := Join(parts, ".");
    reversed := Join(Reverse(parts), ".");
  }

  /** With a year part present, widening parts[2] in place gives the token's date parts. */
  lemma WidenedParts(token: string)
    requires HasDayMonthYear(token)
    ensures var parts := Split(token, ".");
            (if |parts[2]| == 2 then parts[2 := "20" + parts[2]] else parts) == DateParts(token)
  {
  }

  /** No date form holds a '-'. */
  lemma JsFormsHaveNoDash(sku: string)
    ensures forall k :: 0 <= k < |JsDateTokens(sku)| ==>
              '-' !in JsTokenDisplay(JsDateTokens(sku)[k]) && '-' !in JsTokenSortable(JsDateTokens(sku)[k])
  {
    var tokens := JsDateTokens(sku);
    forall k | 0 <= k < |tokens|
      ensures '-' !in JsTokenDisplay(tokens[k]) && '-' !in JsTokenSortable(tokens[k])
    {
      TrimChars(tokens[k], IsJsSpace);
      FormChars(JsTrim(tokens[k]), '-');
    }
  }

  /**
   * The display result splits on " - " into one component per token; the
   * sortable result is a single date with no " - ", the dot-reversal of the
   * first display component.
   */
  lemma JsNormalizedComponents(sku: string)
    ensures var (display, sortable) := JsNormalizedDate(sku);
            var tokens := JsDateTokens(sku);
            && Split(display, " - ") == Map(tokens, JsTokenDisplay)
            && |Split(display, " - ")| == |tokens|
            && '-' !in sortable
            && Join(Reverse(Split(sortable, ".")), ".") == Split(display, " - ")[0]
  {
    var tokens := JsDateTokens(sku);
    var parts := Map(tokens, JsTokenDisplay);
    JsFormsHaveNoDash(sku);
    SplitJoinMarked(parts, " - ", 1);
    ReversedRoundTrip(JsTrim(tokens[0]));
  }

  /** Each displayed date keeps day and month and widens the year exactly when it has two characters. */
  lemma JsNormalizedYears(sku: string, k: nat)
    requires k < |JsDateTokens(sku)|
    ensures var display := JsNormalizedDate(sku).0;
            var raw := Split(JsTrim(JsDateTokens(sku)[k]), ".");
            && k < |Split(display, " - ")|
            && var shown := Split(Split(display, " - ")[k], ".");
            && |shown| == |raw|
            && (forall j :: 0 <= j < |raw| ==>
                  shown[j] == (if j == 2 && |raw[j]| == 2 then "20" + raw[j] else raw[j]))
  {
    JsNormalizedComponents(sku);
    DisplayOfParts(JsTrim(JsDateTokens(sku)[k]));
  }

  /**
   * On a SKU that does not start with '(' and has at most one en-dash, the
   * browser splits the same tokens as the server.
   */
  lemma TokensAgree(sku: string)
    requires sku == [] || sku[0] != '('
    requires forall i, j :: 0 <= i < j < |sku| && sku[i] == EnDash ==> sku[j] != EnDash
    ensures JsDateTokens(sku) == Helpers.DateTokens(sku)
  {
    var b := JsBeforeParenthesis(sku);
    assert b == Helpers.BeforeParenthesis(sku);
    ReplaceFirstIsAll(b, EnDash, '-');
  }

  /** Every character of a server token is '-'-free and comes from the SKU. */
  lemma TokenCharsFromSku(sku: string, k: nat, q: nat)
    requires k < |Helpers.DateTokens(sku)| && q < |Helpers.DateTokens(sku)[k]|
    ensures Helpers.DateTokens(sku)[k][q] in sku
  {
    var b := Helpers.BeforeParenthesis(sku);
    var dashed := ReplaceAll(b, EnDash, '-');
    SplitChars(dashed, "-");
    var c := Helpers.DateTokens(sku)[k][q];
    assert c in dashed;
    var p :| 0 <= p < |dashed| && dashed[p] == c;
    assert b[p] == sku[p];
  }

  /**
   * On a SKU that does not start with '(', has at most one en-dash and whose
   * whitespace both trims agree on, the browser shows the server's display
   * string and sorts by the first of the server's sortable components.
   */
  lemma AgreesWithServer(sku: string)
    requires sku == [] || sku[0] != '('
    requires forall i, j :: 0 <= i < j < |sku| && sku[i] == EnDash ==> sku[j] != EnDash
    requires forall i :: 0 <= i < |sku| ==> (IsPhpSpace(sku[i]) <==> IsJsSpace(sku[i]))
    ensures JsNormalizedDate(sku).0 == Helpers.NormalizedDate(sku).0
    ensures JsNormalizedDate(sku).1 == Helpers.SortableParts(sku)[0]
  {
    TokensAgree(sku);
    DisplayPartsAgree(sku);
    TokenFormsAgree(sku, 0);
  }

  /** Where both trims agree on the SKU's whitespace, the browser's display forms of the server tokens are the server's. */
  lemma DisplayPartsAgree(sku: string)
    requires forall i :: 0 <= i < |sku| ==> (IsPhpSpace(sku[i]) <==> IsJsSpace(sku[i]))
    ensures Map(Helpers.DateTokens(sku), JsTokenDisplay) == Helpers.DisplayParts(sku)
  {
    var tokens := Helpers.DateTokens(sku);
    var js, php := Map(tokens, JsTokenDisplay), Helpers.DisplayParts(sku);
    forall k | 0 <= k < |tokens| ensures js[k] == php[k] {
      TokenFormsAgree(sku, k);
    }
  }

  /** Where both trims agree on the SKU's whitespace, they give one server token the same forms. */
  lemma TokenFormsAgree(sku: string, k: nat)
    requires k < |Helpers.DateTokens(sku)|
    requires forall i :: 0 <= i < |sku| ==> (IsPhpSpace(sku[i]) <==> IsJsSpace(sku[i]))
    ensures JsTokenDisplay(Helpers.DateTokens(sku)[k]) == Helpers.TokenDisplay(Helpers.DateTokens(sku)[k])
    ensures JsTokenSortable(Helpers.DateTokens(sku)[k]) == Helpers.TokenSortable(Helpers.DateTokens(sku)[k])
  {
    var t := Helpers.DateTokens(sku)[k];
    forall q | 0 <= q < |t| ensures IsJsSpace(t[q]) == IsPhpSpace(t[q]) {
      TokenCharsFromSku(sku, k, q);
      var p :| 0 <= p < |sku| && sku[p] == t[q];
    }
    TrimAgree(t, IsJsSpace, IsPhpSpace);
  }

  /**
   * A '(' at index 0 empties the browser's SKU, which then fails the date
   * check (the script would throw), while the server keeps the whole SKU.
   */
  lemma ParenthesisFirstDiffers(sku: string)
    requires |sku| > 0 && sku[0] == '('
    ensures Helpers.BeforeParenthesis(sku) == sku
    ensures JsBeforeParenthesis(sku) == []
    ensures !WellFormedSku(sku)
  {
    var endIndex := CharIndex(sku, '(');
    assert endIndex == 0 by {
      assert forall r :: 0 < r <= |sku| ==> sku[..r][0] == '(';
    }
    var empty: string := [];
    SplitWhole(empty, "-");
    assert JsDateTokens(sku) == [empty];
    SplitWhole(empty, ".");
    assert !HasDayMonthYear(JsTrim(JsDateTokens(sku)[0]));
  }

  /**
   * With two en-dashes before the '(', the browser leaves the second in a
   * token, while no server token holds one.
   */
  lemma SecondEnDashKept(sku: string, i: nat, j: nat)
    requires i < j < |JsBeforeParenthesis(sku)|
    requires JsBeforeParenthesis(sku)[i] == EnDash && JsBeforeParenthesis(sku)[j] == EnDash
    ensures exists k :: 0 <= k < |JsDateTokens(sku)| && EnDash in JsDateTokens(sku)[k]
    ensures forall k :: 0 <= k < |Helpers.DateTokens(sku)| ==> EnDash !in Helpers.DateTokens(sku)[k]
  {
    var dashed := ReplaceFirst(JsBeforeParenthesis(sku), EnDash, '-');
    ReplaceFirstKeepsSecond(JsBeforeParenthesis(sku), i, j);
    SplitKeepsChar(dashed, "-", EnDash);
    var tokens := JsDateTokens(sku);
    assert tokens == Split(dashed, "-");
    var k :| 0 <= k < |tokens| && EnDash in tokens[k];
  }

  /** Only the first en-dash is replaced. */
  lemma ReplaceFirstKeepsSecond(b: string, i: nat, j: nat)
    requires i < j < |b| && b[i] == EnDash && b[j] == EnDash
    ensures EnDash in ReplaceFirst(b, EnDash, '-')
  {
    assert b[..j][i] == EnDash;
    assert ReplaceFirst(b, EnDash, '-')[j] == EnDash;
  }

  // ---------------------------------------------------------------------------
  // clean_product_variations
  // ---------------------------------------------------------------------------

  /** A published variation whose lower-cased SKU does not contain 'individuell'. */
  predicate JsEligible(v: Variation) {
    v.status == "publish" && !Contains(ToLower(v.sku), "individuell")
  }

  /** Both markers are a capital or small 'i' followed by the same tail. */
  lemma MarkerSplit()
    ensures "Individuell" == ['I'] + "ndividuell" && "individuell" == ['i'] + "ndividuell"
  {
  }

  /** The markers' common tail has no capitals. */
  lemma MarkerTailLower()
    ensures ToLower("ndividuell") == "ndividuell"
  {
    var tail := "ndividuell";
    assert forall i :: 0 <= i < |tail| ==> 'a' <= tail[i] <= 'z';
    ToLowerKeepsLower(tail);
  }

  /** The browser's marker is the server's, lower-cased. */
  lemma MarkerLowered()
    ensures ToLower("Individuell") == "individuell"
  {
    MarkerSplit();
    MarkerTailLower();
    assert LowerChar('I') == 'i';
    ToLowerCons('I', "ndividuell");
  }

  /** The browser's test is stricter: what it keeps, the server keeps too. */
  lemma JsEligibleIsServerEligible(v: Variation)
    ensures JsEligible(v) ==> Helpers.IsEligible(v)
  {
    if Contains(v.sku, "Individuell") {
      ContainsToLower(v.sku, "Individuell");
      MarkerLowered();
    }
  }

  /** The browser's marker is already lower case. */
  lemma LowerMarkerFixed()
    ensures ToLower("individuell") == "individuell"
  {
    var marker := "individuell";
    assert forall i :: 0 <= i < |marker| ==> 'a' <= marker[i] <= 'z';
    ToLowerKeepsLower(marker);
  }

  /**
   * The browser's test is strictly stricter: a published variation whose SKU
   * has the marker only in lower case is dropped by the browser but kept by
   * the server.
   */
  lemma LowercaseMarkerDiffers(v: Variation)
    requires v.status == "publish"
    requires Contains(v.sku, "individuell") && !Contains(v.sku, "Individuell")
    ensures Helpers.IsEligible(v) && !JsEligible(v)
  {
    ContainsToLower(v.sku, "individuell");
    LowerMarkerFixed();
  }

  /** productKey.split("_x_")[0]: never holds "_x_", and is the whole key when the key has none. */
  function KeyId(productKey: string): (r: string)
    ensures !Contains(r, "_x_")
    ensures !Contains(productKey, "_x_") ==> r == productKey
  {
    SplitNoSep(productKey, "_x_");
    if Contains(productKey, "_x_") then Split(productKey, "_x_")[0]
    else SplitWhole(productKey, "_x_"); Split(productKey, "_x_")[0]
  }

  /** productKey.split("_x_")[1]: undefined when the key has no "_x_", and never holding "_x_". */
  function KeyName(productKey: string): (r: Option<string>)
    ensures !Contains(productKey, "_x_") ==> r == None
    ensures r.Some? ==> !Contains(r.value, "_x_")
  {
    var parts := Split(productKey, "_x_");
    SplitNoSep(productKey, "_x_");
    if !Contains(productKey, "_x_") then SplitWhole(productKey, "_x_"); None
    else if |parts| >= 2 then Some(parts[1]) else None
  }

  /** A key the server built splits back into the product's id and name when the name has no "_x_". */
  lemma KeyRoundTrip(p: Updater.Product)
    requires !Contains(p.name, "_x_")
    ensures KeyId(Updater.RequestKey(p)) == NatToString(p.id)
    ensures KeyName(Updater.RequestKey(p)) == Some(p.name)
  {
    var digits := NatToString(p.id);
    var sep := "_x_";
    assert sep[1] !in digits;
    SplitAfterPiece(digits, sep, p.name, 1);
    SplitWhole(p.name, sep);
  }

  /** A name holding "_x_" reaches the browser cut short. */
  lemma KeyNameCut(p: Updater.Product)
    requires Contains(p.name, "_x_")
    ensures KeyName(Updater.RequestKey(p)).Some?
    ensures |KeyName(Updater.RequestKey(p)).value| < |p.name|
  {
    var digits := NatToString(p.id);
    var sep := "_x_";
    var key := Updater.RequestKey(p);
    assert sep[1] !in digits;
    SplitAfterPiece(digits, sep, p.name, 1);
    assert IsAt(key, sep, |digits|);
    IndexFromFirst(p.name, sep, 0);
    var i :| 0 <= i <= |p.name| - |sep| && IsAt(p.name, sep, i);
    var j := IndexFrom(p.name, sep, 0);
    assert 0 <= j < |p.name|;
    assert KeyName(key) == Some(Split(p.name, sep)[0]);
    assert Split(p.name, sep)[0] == p.name[..j];
  }

  /** The record made from one eligible variation under a product key. */
  function ToClient(v: Variation, productKey: string): ClientAppointment {
    var (display, sortable) := JsNormalizedDate(v.sku);
    ClientAppointment(KeyId(productKey), KeyName(productKey), display, sortable, v.permalink)
  }

  /** The records clean_product_variations returns. */
  function JsCleaned(vs: seq<Variation>, productKey: string): seq<ClientAppointment> {
    FilterMap(vs, JsEligible, v => ToClient(v, productKey))
  }

  /**
   * One record per browser-eligible variation, in input order: record k
   * comes from the k-th such variation, carries the id and name split from
   * the key, that variation's permalink and its normalised dates.
   */
  lemma JsCleanedRecords(vs: seq<Variation>, productKey: string)
    ensures var r, idx := JsCleaned(vs, productKey), KeptPositions(vs, JsEligible);
            && |r| == |idx| <= |vs|
            && (forall i :: 0 <= i < |vs| ==> (i in idx <==> JsEligible(vs[i])))
            && (forall k, l :: 0 <= k < l < |idx| ==> idx[k] < idx[l])
            && (forall k :: 0 <= k < |idx| ==>
                  && idx[k] < |vs|
                  && r[k].productId == KeyId(productKey)
                  && r[k].productName == KeyName(productKey)
                  && r[k].permalink == vs[idx[k]].permalink
                  && (r[k].skuDate, r[k].reversedSkuDate) == JsNormalizedDate(vs[idx[k]].sku))
  {
    FilterMapPositions(vs, JsEligible, v => ToClient(v, productKey));
  }

  /** One more variation adds its record exactly when it is eligible. */
  lemma JsCleanedStep(vs: seq<Variation>, i: nat, productKey: string)
    requires i < |vs|
    ensures JsCleaned(vs[..i + 1], productKey)
            == JsCleaned(vs[..i], productKey) + (if JsEligible(vs[i]) then [ToClient(vs[i], productKey)] else [])
  {
    assert vs[..i + 1][..i] == vs[..i];
  }

  /** Every eligible variation can be normalised without a TypeError. */
  predicate Normalisable(vs: seq<Variation>) {
    forall i :: 0 <= i < |vs| && JsEligible(vs[i]) ==> WellFormedSku(vs[i].sku)
  }

  /** clean_product_variations: a forEach pushing one record per eligible variation. */
  method CleanProductVariationsJs(productVariations: seq<Variation>, productKey: string)
    returns (clearedProdVariations: seq<ClientAppointment>)
    requires Normalisable(productVariations)
    ensures clearedProdVariations == JsCleaned(productVariations, productKey)
  {
    clearedProdVariations := [];
    var parts := Split(productKey, "_x_");
    var productId := parts[0];
    var productName := if |parts| >= 2 then Some(parts[1]) else None;
    assert productId == KeyId(productKey) && productName == KeyName(productKey);
    for i := 0 to |productVariations|
      invariant clearedProdVariations == JsCleaned(productVariations[..i], productKey)
    {
      var variation := productVariations[i];
      JsCleanedStep(productVariations, i, productKey);
      if variation.status == "publish" && !Contains(ToLower(variation.sku), "individuell") {
        var display, sortable := NormalizeDateJs(variation.sku);
        clearedProdVariations := clearedProdVariations
          + [ClientAppointment(productId, productName, display, sortable, variation.permalink)];
      }
    }
    assert productVariations[..|productVariations|] == productVariations;
  }

  // ---------------------------------------------------------------------------
  // The top-level pipeline (filter, flat, sort, removeDuplicateKey)
  // ---------------------------------------------------------------------------

  /** JSON.parse of a cached response's body, as a list of variations when it is one. */
  function ParsedVariations(outcome: Updater.HttpOutcome, parse: string -> Option<seq<Variation>>): seq<Variation> {
    if outcome.Received? && parse(outcome.response.body).Some? then parse(outcome.response.body).value else []
  }

  /**
   * The script runs to the end only when every cached response has a body
   * that parses to a list and every eligible SKU in it is well formed.
   */
  predicate Renderable(entries: Updater.Responses, parse: string -> Option<seq<Variation>>) {
    forall i :: 0 <= i < |entries| ==>
      && entries[i].1.Received?
      && parse(entries[i].1.response.body).Some?
      && Normalisable(parse(entries[i].1.response.body).value)
  }

  /** One cleaned list per cached response, in the order of the entries. */
  function CleanedLists(entries: Updater.Responses, parse: string -> Option<seq<Variation>>): seq<seq<ClientAppointment>>
    decreases |entries|
  {
    if entries == [] then []
    else
      var e := entries[|entries| - 1];
      CleanedLists(entries[..|entries| - 1], parse) + [JsCleaned(ParsedVariations(e.1, parse), e.0)]
  }

  /** One more answered entry adds its cleaned list. */
  lemma CleanedListsStep(entries: Updater.Responses, i: nat, parse: string -> Option<seq<Variation>>)
    requires i < |entries| && entries[i].1.Received? && parse(entries[i].1.response.body).Some?
    ensures CleanedLists(entries[..i + 1], parse)
            == CleanedLists(entries[..i], parse) + [JsCleaned(parse(entries[i].1.response.body).value, entries[i].0)]
  {
    assert entries[..i + 1][..i] == entries[..i];
  }

  /** The sort key: the sortable start date. */
  function ReversedSkuDate(a: ClientAppointment): string {
    a.reversedSkuDate
  }

  /** The deduplication key. */
  function ProductIdOf(a: ClientAppointment): string {
    a.productId
  }

  /**
   * After sorting by sortable date, removeDuplicateKey by product id keeps a
   * sorted list with one record per product, each an earliest record of its
   * product among all the records.
   */
  lemma EarliestPerProduct(all: seq<ClientAppointment>, sorted: seq<ClientAppointment>)
    requires multiset(sorted) == multiset(all)
    requires SortedBy(sorted, ReversedSkuDate)
    ensures var kept := RemoveDuplicateKey(sorted, ProductIdOf);
            && SortedBy(kept, ReversedSkuDate)
            && (forall p, q :: 0 <= p < q < |kept| ==> kept[p].productId != kept[q].productId)
            && (forall x :: x in kept ==> x in all)
            && (forall y :: y in all ==> KeyIn(kept, ProductIdOf, y.productId))
            && (forall x, y :: x in kept && y in all && y.productId == x.productId ==> Leq(x.reversedSkuDate, y.reversedSkuDate))
  {
    RemoveDuplicateKeyIsFirst(sorted, ProductIdOf);
    FirstOccurrencesSorted(sorted, ProductIdOf, ReversedSkuDate);
    FirstOccurrencesDistinct(sorted, ProductIdOf);
    KeptAgainstAll(all, sorted);
  }

  /** The records kept from the sorted list, compared with all the records. */
  lemma KeptAgainstAll(all: seq<ClientAppointment>, sorted: seq<ClientAppointment>)
    requires multiset(sorted) == multiset(all)
    requires SortedBy(sorted, ReversedSkuDate)
    ensures var kept := FirstOccurrences(sorted, ProductIdOf);
            && (forall x :: x in kept ==> x in all)
            && (forall y :: y in all ==> KeyIn(kept, ProductIdOf, y.productId))
            && (forall x, y :: x in kept && y in all && y.productId == x.productId ==> Leq(x.reversedSkuDate, y.reversedSkuDate))
  {
    PermutationMembers(sorted, all);
    FirstOccurrencesMembers(sorted, ProductIdOf);
    FirstOccurrencesCover(sorted, ProductIdOf);
    FirstOfSortedIsLeast(sorted, ProductIdOf, ReversedSkuDate);
    var kept := FirstOccurrences(sorted, ProductIdOf);
    forall y | y in all ensures KeyIn(kept, ProductIdOf, y.productId) {
      var i :| 0 <= i < |sorted| && sorted[i] == y;
    }
  }

  /**
   * What lines 15-21 compute: every response cleaned, the lists flattened in
   * entry order, stably sorted by sortable date and de-duplicated by product
   * id (the first record of each product is kept).
   */
  function Prepared(entries: Updater.Responses, parse: string -> Option<seq<Variation>>): seq<ClientAppointment> {
    RemoveDuplicateKey(StableSorted(Flatten(CleanedLists(entries, parse)), ReversedSkuDate), ProductIdOf)
  }

  /**
   * The prepared list is sorted, has one record per product that has any,
   * and each is an earliest cleaned record of its product.
   */
  lemma PreparedProperties(entries: Updater.Responses, parse: string -> Option<seq<Variation>>)
    ensures var all := Flatten(CleanedLists(entries, parse));
            var v := Prepared(entries, parse);
            && SortedBy(v, ReversedSkuDate)
            && (forall p, q :: 0 <= p < q < |v| ==> v[p].productId != v[q].productId)
            && |v| <= |all|
            && (forall x :: x in v ==> x in all)
            && (forall y :: y in all ==> KeyIn(v, ProductIdOf, y.productId))
            && (forall x, y :: x in v && y in all && y.productId == x.productId ==> Leq(x.reversedSkuDate, y.reversedSkuDate))
  {
    var all := Flatten(CleanedLists(entries, parse));
    StableSortedSorted(all, ReversedSkuDate);
    StableSortedPermutation(all, ReversedSkuDate);
    EarliestPerProduct(all, StableSorted(all, ReversedSkuDate));
  }

  /**
   * Among the records of a product, the one kept comes first in entry order
   * among those with its date: every record of that product earlier in the
   * flattened lists has a strictly later date.
   */
  lemma PreparedFirstAmongTies(entries: Updater.Responses, parse: string -> Option<seq<Variation>>)
    ensures var all := Flatten(CleanedLists(entries, parse));
            forall x :: x in Prepared(entries, parse) ==>
              exists i :: 0 <= i < |all| && all[i] == x
                && forall j :: 0 <= j < i && all[j].productId == x.productId ==> Less(x.reversedSkuDate, all[j].reversedSkuDate)
  {
    var all := Flatten(CleanedLists(entries, parse));
    var sorted := StableSorted(all, ReversedSkuDate);
    var v := Prepared(entries, parse);
    RemoveDuplicateKeyIsFirst(sorted, ProductIdOf);
    FirstOccurrencesPositions(sorted, ProductIdOf);
    PreparedProperties(entries, parse);
    forall x | x in v
      ensures exists i :: 0 <= i < |all| && all[i] == x
                && forall j :: 0 <= j < i && all[j].productId == x.productId ==> Less(x.reversedSkuDate, all[j].reversedSkuDate)
    {
      var i := KeptFirstInEntryOrder(all, x);
      forall j | 0 <= j < i && all[j].productId == x.productId
        ensures Less(x.reversedSkuDate, all[j].reversedSkuDate)
      {
        assert all[j] in all;
        if Leq(all[j].reversedSkuDate, x.reversedSkuDate) {
          LeqAntisymmetric(all[j].reversedSkuDate, x.reversedSkuDate);
        }
      }
    }
  }

  /** A record kept from the stable sort is, in entry order, the first of its product with its date. */
  lemma KeptFirstInEntryOrder(all: seq<ClientAppointment>, x: ClientAppointment) returns (i: nat)
    requires x in FirstOccurrences(StableSorted(all, ReversedSkuDate), ProductIdOf)
    ensures i < |all| && all[i] == x
    ensures forall j :: 0 <= j < i && all[j].productId == x.productId ==> all[j].reversedSkuDate != x.reversedSkuDate
  {
    var sorted := StableSorted(all, ReversedSkuDate);
    FirstOccurrencesPositions(sorted, ProductIdOf);
    var r, idx := FirstOccurrences(sorted, ProductIdOf), KeptIndices(sorted, ProductIdOf);
    var k :| 0 <= k < |r| && r[k] == x;
    var a := idx[k];
    assert IsFirst(sorted, ProductIdOf, a);
    var p := (y: ClientAppointment) => y.productId == x.productId;
    forall j | 0 <= j < a ensures !p(sorted[j]) {
      assert sorted[..a][j] == sorted[j];
    }
    StableFirstAmongTies(all, ReversedSkuDate, p, a);
    i :| 0 <= i < |all| && all[i] == sorted[a]
           && forall j :: 0 <= j < i && p(all[j]) ==> ReversedSkuDate(all[j]) != ReversedSkuDate(all[i]);
  }

  /**
   * Lines 15-21 of the script: clean every response, drop the empty lists,
   * flatten, sort by sortable date and keep the first record per product.
   * The result is the specification Prepared: sorted, one record per product
   * that has any, each an earliest record of its product, and among records
   * of a product with the same date the first in entry order.
   */
  method PrepareAppointments(entries: Updater.Responses, parse: string -> Option<seq<Variation>>)
    returns (variations: seq<ClientAppointment>)
    requires Renderable(entries, parse)
    ensures variations == Prepared(entries, parse)
    ensures SortedBy(variations, ReversedSkuDate)
    ensures forall p, q :: 0 <= p < q < |variations| ==> variations[p].productId != variations[q].productId
    ensures |variations| <= |Flatten(CleanedLists(entries, parse))|
    ensures forall x :: x in variations ==> x in Flatten(CleanedLists(entries, parse))
    ensures forall y :: y in Flatten(CleanedLists(entries, parse)) ==> KeyIn(variations, ProductIdOf, y.productId)
    ensures forall x, y :: x in variations && y in Flatten(CleanedLists(entries, parse)) && y.productId == x.productId
              ==> Leq(x.reversedSkuDate, y.reversedSkuDate)
    ensures var all := Flatten(CleanedLists(entries, parse));
            forall x :: x in variations ==>
              exists i :: 0 <= i < |all| && all[i] == x
                && forall j :: 0 <= j < i && all[j].productId == x.productId ==> Less(x.reversedSkuDate, all[j].reversedSkuDate)
  {
    var lists: seq<seq<ClientAppointment>> := [];
    for i := 0 to |entries|
      invariant lists == CleanedLists(entries[..i], parse)
    {
      var productKey := entries[i].0;
      var productVariations := parse(entries[i].1.response.body).value;
      var cleaned := CleanProductVariationsJs(productVariations, productKey);
      CleanedListsStep(entries, i, parse);
      lists := lists + [cleaned];
    }
    assert entries[..|entries|] == entries;
    var flat := Flatten(NonEmptyLists(lists));
    FlattenSkipsEmpty(lists);
    var a := new ClientAppointment[|flat|](k requires 0 <= k < |flat| => flat[k]);
    assert a[..] == flat;
    SortByKey(a, ReversedSkuDate);
    variations := RemoveDuplicateKey(a[..], ProductIdOf);
    PreparedProperties(entries, parse);
    PreparedFirstAmongTies(entries, parse);
  }

  // ---------------------------------------------------------------------------
  // createAppointmentNodes and the script's defaults
  // ---------------------------------------------------------------------------

  /** One rendered entry: a link to the permalink showing the date in bold and the product name. */
  datatype Node = Node(href: string, html: string)

  /** String concatenation of an undefined productName gives "undefined". */
  function NameText(name: Option<string>): string {
    match name
    case Some(n) => n
    case None => "undefined"
  }

  /** The entry createAppointmentNodes builds for one record. */
  function NodeFor(a: ClientAppointment): Node {
    Node(a.permalink, "<b>" + a.skuDate + "</b><br/>" + NameText(a.productName))
  }

  /** createAppointmentNodes: all records when SHOW_ALL, otherwise at most the first three, in order. */
  method CreateAppointmentNodes(variations: seq<ClientAppointment>, showAll: bool) returns (nodes: seq<Node>)
    ensures showAll ==> |nodes| == |variations|
    ensures !showAll ==> |nodes| == if |variations| < 3 then |variations| else 3
    ensures forall i :: 0 <= i < |nodes| ==> nodes[i] == NodeFor(variations[i])
  {
    var totalAppointments := |variations|;
    var numAppointments := if showAll then totalAppointments else if totalAppointments < 3 then totalAppointments else 3;
    nodes := [];
    for i := 0 to numAppointments
      invariant |nodes| == i
      invariant forall j :: 0 <= j < i ==> nodes[j] == NodeFor(variations[j])
    {
      var html := "<b>" + variations[i].skuDate + "</b><br/>";
      html := html + NameText(variations[i].productName);
      nodes := nodes + [Node(variations[i].permalink, html)];
    }
  }

  /** SCRIPT_DATA as the page defines it; either field may be missing. */
  datatype ScriptData = ScriptData(variations: Option<Updater.Responses>, showAll: Option<bool>)

  /** VARIATIONS, or {} when it is missing. */
  function EntriesOf(data: ScriptData): Updater.Responses {
    if data.variations == None then [] else data.variations.value
  }

  /** The entries show the first records of `v` in order: all of them when showAll, otherwise at most three. */
  predicate RendersFirst(nodes: seq<Node>, v: seq<ClientAppointment>, showAll: bool) {
    && |nodes| == (if showAll || |v| < 3 then |v| else 3)
    && forall i :: 0 <= i < |nodes| ==> nodes[i] == NodeFor(v[i])
  }

  /**
   * The whole script: missing VARIATIONS reads as {} and missing SHOW_ALL as
   * false, then the pipeline runs and the entries are rendered. When some
   * cached response has no body that parses to a list, or an eligible SKU
   * has no year, JSON.parse, forEach or normalize_date throws while lines
   * 15-17 run, before anything is rendered, so nothing is shown.
   */
  method RunScript(data: ScriptData, parse: string -> Option<seq<Variation>>) returns (nodes: seq<Node>)
    ensures data.variations == None ==> nodes == []
    ensures !Renderable(EntriesOf(data), parse) ==> nodes == []
    ensures Renderable(EntriesOf(data), parse) ==>
      RendersFirst(nodes, Prepared(EntriesOf(data), parse), data.showAll == Some(true))
  {
    var entries := EntriesOf(data);
    var showAll := if data.showAll == None then false else data.showAll.value;
    if !Renderable(entries, parse) {
      nodes := [];
    } else {
      var variations := PrepareAppointments(entries, parse);
      nodes := CreateAppointmentNodes(variations, showAll);
    }
  }

  /**
   * A variations request that failed is cached as an object without a body,
   * and a non-200 answer as an error object: one such entry makes the script
   * throw, so nothing is shown.
   */
  lemma FailedRequestBlanksPage(entries: Updater.Responses, parse: string -> Option<seq<Variation>>, i: nat)
    requires i < |entries|
    requires entries[i].1.RequestFailed? || parse(entries[i].1.response.body).None?
    ensures !Renderable(entries, parse)
  {
  }

  /**
   * The entries request_complete_callback means to keep: a failed or non-200
   * request is to contribute no variations.
   */
  function Answered(entries: Updater.Responses): Updater.Responses
    decreases |entries|
  {
    if entries == [] then []
    else
      var e := entries[|entries| - 1];
      Answered(entries[..|entries| - 1]) + (if Updater.RequestCompleteCallback(e.1).RawBody? then [e] else [])
  }

  /** The answered entries are exactly the entries whose request succeeded with status 200, none added. */
  lemma {:induction false} AnsweredMembers(entries: Updater.Responses)
    ensures |Answered(entries)| <= |entries|
    ensures forall e :: e in Answered(entries) <==> e in entries && Updater.RequestCompleteCallback(e.1).RawBody?
    decreases |entries|
  {
    if entries != [] {
      var init := entries[..|entries| - 1];
      AnsweredMembers(init);
      assert entries == init + [entries[|entries| - 1]];
    }
  }

  lemma {:induction false} AnsweredAppend(a: Updater.Responses, b: Updater.Responses)
    ensures Answered(a + b) == Answered(a) + Answered(b)
    decreases |b|
  {
    if b == [] {
      assert a + b == a;
    } else {
      var init := b[..|b| - 1];
      AnsweredAppend(a, init);
      assert (a + b)[..|a + b| - 1] == a + init;
      assert (a + b)[|a + b| - 1] == b[|b| - 1];
    }
  }

  /** When every request was answered with status 200, nothing is dropped, so the intended script is the script as written. */
  lemma {:induction false} AllAnsweredKept(entries: Updater.Responses)
    requires forall i :: 0 <= i < |entries| ==> Updater.RequestCompleteCallback(entries[i].1).RawBody?
    ensures Answered(entries) == entries
    decreases |entries|
  {
    if entries != [] {
      var init := entries[..|entries| - 1];
      AllAnsweredKept(init);
    }
  }

  /** A failed request among the others is ignored: the rest is answered exactly as without it. */
  lemma FailedRequestIgnored(before: Updater.Responses, key: string, outcome: Updater.HttpOutcome, after: Updater.Responses)
    requires Updater.RequestCompleteCallback(outcome).NoVariations?
    ensures Answered(before + [(key, outcome)] + after) == Answered(before + after)
  {
    AnsweredAppend(before + [(key, outcome)], after);
    AnsweredAppend(before, [(key, outcome)]);
    AnsweredAppend(before, after);
    assert Answered([(key, outcome)]) == [];
  }

  /**
   * The script with failed requests contributing nothing: the appointments
   * of the answered products are shown whatever happened to the others.
   */
  method RunScriptIntended(data: ScriptData, parse: string -> Option<seq<Variation>>) returns (nodes: seq<Node>)
    ensures data.variations == None ==> nodes == []
    ensures !Renderable(Answered(EntriesOf(data)), parse) ==> nodes == []
    ensures Renderable(Answered(EntriesOf(data)), parse) ==>
      RendersFirst(nodes, Prepared(Answered(EntriesOf(data)), parse), data.showAll == Some(true))
  {
    var entries := Answered(EntriesOf(data));
    var showAll := if data.showAll == None then false else data.showAll.value;
    if !Renderable(entries, parse) {
      nodes := [];
    } else {
      var variations := PrepareAppointments(entries, parse);
      nodes := CreateAppointmentNodes(variations, showAll);
    }
  }
}
