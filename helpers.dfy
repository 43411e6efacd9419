/**
 * The server-side cleaning helpers (class Appointment_Updater_Helpers):
 * normalising SKU dates, reshaping a product's variations into appointment
 * records, sorting them by start date, dropping duplicates and dropping the
 * leading run of past appointments.
 */
module Helpers {
  import opened Strings
  import opened Skus
  import opened Sorting
  import opened Dedup
  import opened Filtering

  /** The record clean_product_variations produces for one variation. */
  datatype Appointment = Appointment(
    productId: string,
    trainingName: string,
    skuDate: string,
    reversedSkuDate: string,
    permalink: string)

  // ---------------------------------------------------------------------------
  // normalize_date
  // ---------------------------------------------------------------------------

  /**
   * The SKU up to its first '(' — but only when that '(' is at an index above
   * zero: strpos gives 0 or false otherwise, `?: null` turns both into null and
   * substr with a null length keeps the whole string.
   */
  function BeforeParenthesis(sku: string): (r: string)
    ensures |r| <= |sku| && r == sku[..|r|]
    ensures |r| < |sku| ==> |r| > 0 && sku[|r|] == '(' && '(' !in r
    ensures |r| == |sku| ==> '(' !in sku || sku[0] == '('
  {
    var i := CharIndex(sku, '(');
    if i > 0 then sku[..i] else sku
  }

  /** Every en-dash turned into '-', then split on '-': one token per date of the range. */
  function DateTokens(sku: string): (tokens: seq<string>)
    ensures |tokens| >= 1
    ensures forall k :: 0 <= k < |tokens| ==> '-' !in tokens[k] && EnDash !in tokens[k]
  {
    var dashed := ReplaceAll(BeforeParenthesis(sku), EnDash, '-');
    assert EnDash !in dashed by {
      assert forall i :: 0 <= i < |dashed| ==> dashed[i] != EnDash;
    }
    SplitCharNoSep(dashed, '-');
    SplitChars(dashed, "-");
    Split(dashed, "-")
  }

  /** The tokens rejoined with '-' give back the truncated SKU with its en-dashes replaced. */
  lemma DateTokensRejoin(sku: string)
    ensures Join(DateTokens(sku), "-") == ReplaceAll(BeforeParenthesis(sku), EnDash, '-')
    ensures forall i :: 0 <= i < |Join(DateTokens(sku), "-")| ==> Join(DateTokens(sku), "-")[i] != EnDash
  {
    JoinSplit(ReplaceAll(BeforeParenthesis(sku), EnDash, '-'), "-");
  }

  /** The display form (DD.MM.YYYY) of one token, trimmed. */
  function TokenDisplay(token: string): string {
    DisplayOf(PhpTrim(token))
  }

  /** The sortable form (YYYY.MM.DD) of one token, trimmed. */
  function TokenSortable(token: string): string {
    ReversedOf(PhpTrim(token))
  }

  /** The display form of every date of the SKU. */
  function DisplayParts(sku: string): seq<string> {
    Map(DateTokens(sku), TokenDisplay)
  }

  /** The sortable form of every date of the SKU. */
  function SortableParts(sku: string): seq<string> {
    Map(DateTokens(sku), TokenSortable)
  }

  /** What normalize_date returns: both forms of every date, joined with " - ". */
  function NormalizedDate(sku: string): (string, string)
  {
    (Join(DisplayParts(sku), " - "), Join(SortableParts(sku), " - "))
  }

  /** normalize_date: the foreach over the date tokens, appending both forms of each. */
  method NormalizeDate(date: string) returns (display: string, sortable: string)
    ensures (display, sortable) == NormalizedDate(date)
  {
    var dates := DateTokens(date);
    var normalizedDates: seq<string> := [];
    var reversedNormalizedDates: seq<string> := [];
    for i := 0 to |dates|
      invariant normalizedDates == Map(dates[..i], TokenDisplay)
      invariant reversedNormalizedDates == Map(dates[..i], TokenSortable)
    {
      var token := PhpTrim(dates[i]);
      var parts := Split(token, ".");
      // a missing year part reads as null, whose length is 0
      if |parts| >= 3 && |parts[2]| == 2 {
        parts := parts[2 := "20" + parts[2]];
      }
      assert parts == DateParts(token);
      ghost var prefix := dates[..i + 1];
      assert prefix[..i] == dates[..i] && prefix[i] == dates[i];
      assert Map(prefix, TokenDisplay) == Map(dates[..i], TokenDisplay) + [DisplayOf(token)];
      assert Map(prefix, TokenSortable) == Map(dates[..i], TokenSortable) + [ReversedOf(token)];
      reversedNormalizedDates := reversedNormalizedDates + [Join(Reverse(parts), ".")];
      normalizedDates := normalizedDates + [Join(parts, ".")];
    }
    assert dates[..|dates|] == dates;
    display := Join(normalizedDates, " - ");
    sortable := Join(reversedNormalizedDates, " - ");
  }

  /** No date form holds a '-', so " - " separates the components unambiguously. */
  lemma FormsHaveNoDash(sku: string)
    ensures forall k :: 0 <= k < |DisplayParts(sku)| ==> '-' !in DisplayParts(sku)[k]
    ensures forall k :: 0 <= k < |SortableParts(sku)| ==> '-' !in SortableParts(sku)[k]
  {
    var tokens := DateTokens(sku);
    forall k | 0 <= k < |tokens|
      ensures '-' !in DisplayParts(sku)[k] && '-' !in SortableParts(sku)[k]
    {
      TrimChars(tokens[k], IsPhpSpace);
      FormChars(PhpTrim(tokens[k]), '-');
    }
  }

  /** The display result splits on " - " into the display form of each date. */
  lemma DisplaySplits(sku: string)
    ensures Split(NormalizedDate(sku).0, " - ") == DisplayParts(sku)
  {
    FormsHaveNoDash(sku);
    SplitJoinMarked(DisplayParts(sku), " - ", 1);
  }

  /** The sortable result splits on " - " into the sortable form of each date. */
  lemma SortableSplits(sku: string)
    ensures Split(NormalizedDate(sku).1, " - ") == SortableParts(sku)
  {
    FormsHaveNoDash(sku);
    SplitJoinMarked(SortableParts(sku), " - ", 1);
  }

  /**
   * Both results split on " - " into one component per date token, and each
   * sortable component reversed part by part is the display component at the
   * same position (and the other way round).
   */
  lemma NormalizedComponents(sku: string)
    ensures var (display, sortable) := NormalizedDate(sku);
            && Split(display, " - ") == DisplayParts(sku)
            && Split(sortable, " - ") == SortableParts(sku)
            && |Split(display, " - ")| == |Split(sortable, " - ")| == |DateTokens(sku)|
            && (forall k :: 0 <= k < |DateTokens(sku)| ==>
                  && Join(Reverse(Split(Split(sortable, " - ")[k], ".")), ".") == Split(display, " - ")[k]
                  && Join(Reverse(Split(Split(display, " - ")[k], ".")), ".") == Split(sortable, " - ")[k])
  {
    DisplaySplits(sku);
    SortableSplits(sku);
    var tokens := DateTokens(sku);
    forall k | 0 <= k < |tokens|
      ensures Join(Reverse(Split(SortableParts(sku)[k], ".")), ".") == DisplayParts(sku)[k]
      ensures Join(Reverse(Split(DisplayParts(sku)[k], ".")), ".") == SortableParts(sku)[k]
    {
      ReversedRoundTrip(PhpTrim(tokens[k]));
    }
  }

  /**
   * The year of each displayed date is the token's year part, prefixed with
   * "20" exactly when that part has two characters; day and month are kept.
   */
  lemma NormalizedYears(sku: string, k: nat)
    requires k < |DateTokens(sku)|
    ensures var raw := Split(PhpTrim(DateTokens(sku)[k]), ".");
            var shown := Split(DisplayParts(sku)[k], ".");
            && |shown| == |raw|
            && (forall j :: 0 <= j < |raw| ==>
                  shown[j] == (if j == 2 && |raw[j]| == 2 then "20" + raw[j] else raw[j]))
  {
    DisplayOfParts(PhpTrim(DateTokens(sku)[k]));
  }

  // ---------------------------------------------------------------------------
  // clean_product_variations
  // ---------------------------------------------------------------------------

  /** A published variation whose SKU does not name an individual appointment (case-sensitive). */
  predicate IsEligible(v: Variation) {
    v.status == "publish" && !Contains(v.sku, "Individuell")
  }

  /** The record made from one eligible variation. */
  function ToAppointment(v: Variation, productId: string, productName: string): Appointment
  {
    var (display, sortable) := NormalizedDate(v.sku);
    Appointment(productId, productName, display, sortable, v.permalink)
  }

  /** The records clean_product_variations returns. */
  function Cleaned(vs: seq<Variation>, productId: string, productName: string): seq<Appointment> {
    FilterMap(vs, IsEligible, v => ToAppointment(v, productId, productName))
  }

  /**
   * One record per eligible variation and nothing else, in input order, and
   * never more records than variations: record k comes from the k-th
   * eligible variation and carries the given product id and name, that
   * variation's permalink and its normalised dates.
   */
  lemma CleanedRecords(vs: seq<Variation>, productId: string, productName: string)
    ensures var r, idx := Cleaned(vs, productId, productName), KeptPositions(vs, IsEligible);
            && |r| == |idx| <= |vs|
            && (forall i :: 0 <= i < |vs| ==> (i in idx <==> IsEligible(vs[i])))
            && (forall k, l :: 0 <= k < l < |idx| ==> idx[k] < idx[l])
            && (forall k :: 0 <= k < |idx| ==>
                  && idx[k] < |vs|
                  && r[k].productId == productId
                  && r[k].trainingName == productName
                  && r[k].permalink == vs[idx[k]].permalink
                  && (r[k].skuDate, r[k].reversedSkuDate) == NormalizedDate(vs[idx[k]].sku))
  {
    FilterMapPositions(vs, IsEligible, v => ToAppointment(v, productId, productName));
  }

  /** clean_product_variations: a foreach appending one record per eligible variation. */
  method CleanProductVariations(productVariations: seq<Variation>, productId: string, productName: string)
    returns (cleaned: seq<Appointment>)
    ensures cleaned == Cleaned(productVariations, productId, productName)
  {
    cleaned := [];
    for i := 0 to |productVariations|
      invariant cleaned == Cleaned(productVariations[..i], productId, productName)
    {
      var variation := productVariations[i];
      assert productVariations[..i + 1][..i] == productVariations[..i];
      if variation.status == "publish" && !Contains(variation.sku, "Individuell") {
        var display, sortable := NormalizeDate(variation.sku);
        cleaned := cleaned + [Appointment(productId, productName, display, sortable, variation.permalink)];
      }
    }
    assert productVariations[..|productVariations|] == productVariations;
  }

  // ---------------------------------------------------------------------------
  // sort_dates_ascending
  // ---------------------------------------------------------------------------

  /** The comparison key: the first '-' piece of the sortable date, right-trimmed (YYYY.MM.DD). */
  function StartDate(a: Appointment): string {
    PhpRTrim(Split(a.reversedSkuDate, "-")[0])
  }

  /**
   * sort_dates_ascending: usort by strcmp of the start dates, stable as in
   * PHP 8, so records with the same start date keep their order; usort
   * returns true.
   */
  method SortDatesAscending(variations: array<Appointment>) returns (ok: bool)
    modifies variations
    ensures ok
    ensures variations[..] == StableSorted(old(variations[..]), StartDate)
    ensures SortedBy(variations[..], StartDate)
    ensures multiset(variations[..]) == multiset(old(variations[..]))
  {
    SortByKey(variations, StartDate);
    ok := true;
  }

  // ---------------------------------------------------------------------------
  // remove_duplicate_keys
  // ---------------------------------------------------------------------------

  /**
   * remove_duplicate_keys: keeps a record when its key value is not yet in the
   * list of seen values (strict in_array), and records the value.
   */
  method RemoveDuplicateKeys<T, K(==)>(records: seq<T>, key: T -> K) returns (duplicatesRemoved: seq<T>)
    ensures duplicatesRemoved == FirstOccurrences(records, key)
  {
    duplicatesRemoved := [];
    var valueArray: seq<K> := [];
    for i := 0 to |records|
      invariant duplicatesRemoved == FirstOccurrences(records[..i], key)
      invariant forall k :: k in valueArray <==> KeyIn(records[..i], key, k)
    {
      var prefix := records[..i + 1];
      assert prefix[..i] == records[..i];
      assert prefix[i] == records[i];
      assert FirstOccurrences(prefix, key) == FirstOccurrences(records[..i], key)
        + (if KeyIn(records[..i], key, key(records[i])) then [] else [records[i]]);
      assert forall k :: KeyIn(prefix, key, k) <==> KeyIn(records[..i], key, k) || k == key(records[i]) by {
        forall k | KeyIn(prefix, key, k) ensures KeyIn(records[..i], key, k) || k == key(records[i]) {
          var j :| 0 <= j < |prefix| && key(prefix[j]) == k;
          if j < i {
            assert records[..i][j] == prefix[j];
          }
        }
        assert prefix[i] == records[i];
        forall k | KeyIn(records[..i], key, k) ensures KeyIn(prefix, key, k) {
          var j :| 0 <= j < i && key(records[..i][j]) == k;
          assert prefix[j] == records[..i][j];
        }
      }
      if key(records[i]) !in valueArray {
        valueArray := valueArray + [key(records[i])];
        duplicatesRemoved := duplicatesRemoved + [records[i]];
      }
    }
    assert records[..|records|] == records;
  }

  // ---------------------------------------------------------------------------
  // remove_dates_before_current_date
  // ---------------------------------------------------------------------------

  /** The appointment starts before `today` (YYYY.MM.DD) in string order. */
  predicate IsPast(a: Appointment, today: string) {
    Less(StartDate(a), today)
  }

  /** The input without its longest leading run of past appointments. */
  function DropPastPrefix(xs: seq<Appointment>, today: string): (r: seq<Appointment>)
    ensures |r| <= |xs| && r == xs[|xs| - |r|..]
    ensures forall k :: 0 <= k < |xs| - |r| ==> IsPast(xs[k], today)
    ensures |r| > 0 ==> !IsPast(r[0], today)
    decreases |xs|
  {
    if xs == [] then []
    else if IsPast(xs[0], today) then DropPastPrefix(xs[1..], today)
    else xs
  }

  /** A past prefix of length p ended by the end of input or a current appointment is the one dropped. */
  lemma {:induction false} DropPastPrefixAt(xs: seq<Appointment>, today: string, p: nat)
    requires p <= |xs|
    requires forall k :: 0 <= k < p ==> IsPast(xs[k], today)
    requires p == |xs| || !IsPast(xs[p], today)
    ensures DropPastPrefix(xs, today) == xs[p..]
    decreases p
  {
    if p > 0 {
      DropPastPrefixAt(xs[1..], today, p - 1);
      assert xs[1..][p - 1..] == xs[p..];
    }
  }

  /**
   * remove_dates_before_current_date: walks forward recording the last past
   * index and stops at the first appointment that is not past.
   */
  method RemoveDatesBeforeCurrentDate(variations: seq<Appointment>, currentDate: string)
    returns (r: seq<Appointment>)
    ensures r == DropPastPrefix(variations, currentDate)
  {
    var offset := -1;
    var arraySize := |variations|;
    var i := 0;
    while i < arraySize
      invariant 0 <= i <= arraySize
      invariant offset == i - 1
      invariant forall k :: 0 <= k < i ==> IsPast(variations[k], currentDate)
    {
      var bDate := PhpRTrim(Split(variations[i].reversedSkuDate, "-")[0]);
      if Less(bDate, currentDate) {
        offset := i;
      } else {
        break;
      }
      i := i + 1;
    }
    DropPastPrefixAt(variations, currentDate, offset + 1);
    r := variations[offset + 1..];
  }

  /** On input sorted by start date, nothing that starts before today survives. */
  lemma SortedLeavesNoPast(xs: seq<Appointment>, today: string)
    requires SortedBy(xs, StartDate)
    ensures forall k :: 0 <= k < |DropPastPrefix(xs, today)| ==> !IsPast(DropPastPrefix(xs, today)[k], today)
  {
    var r := DropPastPrefix(xs, today);
    var p := |xs| - |r|;
    forall k | 0 <= k < |r| ensures !IsPast(r[k], today) {
      LeqTotal(today, StartDate(r[0]));
      assert Leq(StartDate(xs[p]), StartDate(xs[p + k])) || k == 0;
      if k > 0 {
        LeqTransitive(today, StartDate(r[0]), StartDate(r[k]));
      }
    }
  }

  /** An appointment starting today is not dropped, nor is anything after it. */
  lemma StartingTodayIsKept(xs: seq<Appointment>, today: string)
    requires |xs| > 0 && StartDate(xs[0]) == today
    ensures DropPastPrefix(xs, today) == xs
  {
    LeqReflexive(today);
  }

  /**
   * On unsorted input the scan stops at the first current appointment, so a
   * past one behind it survives.
   */
  lemma UnsortedKeepsPast(a: Appointment, b: Appointment, today: string)
    requires !IsPast(a, today) && IsPast(b, today)
    ensures var r := DropPastPrefix([a, b], today);
            |r| == 2 && IsPast(r[1], today)
  {
  }
}
