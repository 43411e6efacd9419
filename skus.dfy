/**
 * What both the server-side (PHP) and the browser-side (JavaScript) cleaners
 * share: the variation record the shop's REST API returns and the reading of
 * one trimmed date token `D.M.Y` of a SKU.
 */
module Skus {
  import opened Strings

  /** A product variation as the shop's REST API returns it (the fields the plugin reads). */
  datatype Variation = Variation(status: string, sku: string, permalink: string)

  /** The en-dash some SKUs use between the two dates of a range. */
  const EnDash: char := '\U{2013}'

  /** A trimmed token has at least a day, a month and a year part. */
  predicate HasDayMonthYear(token: string) {
    |Split(token, ".")| >= 3
  }

  /**
   * The dot-separated parts of a trimmed token, a two-character year widened
   * to "20YY". A token without a year part is left as split (PHP reads the
   * missing part as null, whose length is 0).
   */
  function DateParts(token: string): (parts: seq<string>)
    ensures |parts| == |Split(token, ".")|
    ensures forall k :: 0 <= k < |parts| ==> '.' !in parts[k]
    ensures forall k, c :: 0 <= k < |parts| && c in parts[k] ==> c in token || c == '2' || c == '0'
  {
    SplitCharNoSep(token, '.');
    SplitChars(token, ".");
    var raw := Split(token, ".");
    if |raw| >= 3 && |raw[2]| == 2 then raw[2 := "20" + raw[2]] else raw
  }

  /** The display form of one date: its parts rejoined with '.' (DD.MM.YYYY). */
  function DisplayOf(token: string): string
  {
    Join(DateParts(token), ".")
  }

  /** The sortable form of one date: its parts in reverse order (YYYY.MM.DD). */
  function ReversedOf(token: string): string
  {
    Join(Reverse(DateParts(token)), ".")
  }

  /**
   * The display form splits back into the token's parts: day and month as
   * written, the year prefixed with "20" exactly when it has two characters.
   */
  lemma DisplayOfParts(token: string)
    ensures var raw := Split(token, ".");
            var shown := Split(DisplayOf(token), ".");
            && |shown| == |raw|
            && (forall k :: 0 <= k < |raw| ==>
                  shown[k] == (if k == 2 && |raw[k]| == 2 then "20" + raw[k] else raw[k]))
  {
    SplitJoinMarked(DateParts(token), ".", 0);
  }

  /** Reversing the parts of either form gives the other form. */
  lemma ReversedRoundTrip(token: string)
    ensures Join(Reverse(Split(ReversedOf(token), ".")), ".") == DisplayOf(token)
    ensures Join(Reverse(Split(DisplayOf(token), ".")), ".") == ReversedOf(token)
  {
    var parts := DateParts(token);
    SplitJoinMarked(parts, ".", 0);
    SplitJoinMarked(Reverse(parts), ".", 0);
    ReverseReverse(parts);
  }

  /** A date form holds no character the token lacks, apart from '.', '2' and '0'. */
  lemma FormChars(token: string, c: char)
    requires c !in token && c != '.' && c != '2' && c != '0'
    ensures c !in DisplayOf(token) && c !in ReversedOf(token)
  {
    var parts := DateParts(token);
    if c in DisplayOf(token) {
      JoinChars(parts, ".", c);
    }
    if c in ReversedOf(token) {
      JoinChars(Reverse(parts), ".", c);
    }
  }
}
