/** The price text box of the dashboard and the upload that fills it.
    Typed text is cut at every run of white space and commas, each piece converted
    with `Number`, and the pieces that are NaN dropped. An uploaded CSV file whose
    parse is non-empty replaces the prices and writes them back into the text box,
    joined with commas. */
module PriceText {
  import opened Seqs
  import opened JsText
  import opened JsNumber
  import opened CsvParser

  /** `priceText.split(/[\s,]+/)`. */
  function Tokens(text: string): (tokens: seq<string>)
    ensures |tokens| >= 1
  {
    Split(text, SpaceOrCommaRun)
  }

  /** `Number` applied to every token. */
  function Numbers(tokens: seq<string>): seq<Option<Num>> {
    seq(|tokens|, i requires 0 <= i < |tokens| => ToNumber(tokens[i]))
  }

  /** The prices typed into the text box (`manualPrices`): one per token that is not
      NaN, in token order. */
  function ManualPrices(text: string): (prices: seq<Num>)
    ensures |prices| <= |Tokens(text)|
  {
    PricesOf(Tokens(text))
  }

  /** The prices read from a list of tokens: their conversions that are not NaN. */
  function PricesOf(tokens: seq<string>): (prices: seq<Num>)
    ensures |prices| <= |tokens|
  {
    Present(Numbers(tokens))
  }

  /** A price is kept exactly when some token converts to it. */
  lemma ManualPricesMembership(text: string, v: Num)
    ensures v in ManualPrices(text) <==> exists i :: 0 <= i < |Tokens(text)| && ToNumber(Tokens(text)[i]) == Some(v)
  {
    PricesOfMembership(Tokens(text), v);
  }

  lemma PricesOfMembership(tokens: seq<string>, v: Num)
    ensures v in PricesOf(tokens) <==> exists i :: 0 <= i < |tokens| && ToNumber(tokens[i]) == Some(v)
  {
    var ns := Numbers(tokens);
    PresentMembership(ns, v);
    if v in PricesOf(tokens) {
      var i :| 0 <= i < |ns| && ns[i] == Some(v);
      NumbersAt(tokens, i);
    }
    if exists i :: 0 <= i < |tokens| && ToNumber(tokens[i]) == Some(v) {
      var i :| 0 <= i < |tokens| && ToNumber(tokens[i]) == Some(v);
      NumbersAt(tokens, i);
    }
  }

  lemma NumbersAt(tokens: seq<string>, i: nat)
    requires i < |tokens|
    ensures |Numbers(tokens)| == |tokens| && Numbers(tokens)[i] == ToNumber(tokens[i])
  {
  }

  /** Tokens never hold white space or commas, and only the first and the last can be
      empty. */
  lemma TokensShape(text: string)
    ensures FreeOf(Tokens(text), SpaceOrCommaRun) && InteriorNonEmpty(Tokens(text))
  {
    SplitRunPieces(text, 0, SpaceOrCommaRun);
  }

  /** Text that starts with white space or a comma has an empty first token, which
      converts to 0: the first price is 0. */
  lemma LeadingSeparatorGivesZero(text: string)
    requires text != [] && InRun(text[0], SpaceOrCommaRun)
    ensures ManualPrices(text) != [] && ManualPrices(text)[0] == Zero
  {
    SplitFirstPiece(text, 0, SpaceOrCommaRun);
    FirstTokenEmpty(Tokens(text));
  }

  /** Text that ends with white space or a comma has an empty last token, which
      converts to 0: the last price is 0. */
  lemma TrailingSeparatorGivesZero(text: string)
    requires text != [] && InRun(text[|text| - 1], SpaceOrCommaRun)
    ensures ManualPrices(text) != [] && ManualPrices(text)[|ManualPrices(text)| - 1] == Zero
  {
    EndsWithSeparator(text);
    LastTokenEmpty(Tokens(text));
  }

  /** Text that ends with white space or a comma has an empty last token. */
  lemma EndsWithSeparator(text: string)
    requires text != [] && InRun(text[|text| - 1], SpaceOrCommaRun)
    ensures Tokens(text)[|Tokens(text)| - 1] == []
  {
    SplitLastPiece(text, 0, SpaceOrCommaRun);
  }

  /** An empty first token makes 0 the first price. */
  lemma FirstTokenEmpty(tokens: seq<string>)
    requires tokens != [] && tokens[0] == []
    ensures PricesOf(tokens) != [] && PricesOf(tokens)[0] == Zero
  {
    var ns := Numbers(tokens);
    EmptyTokenZero(tokens, 0);
    assert Present(ns) == [Zero] + Present(ns[1..]);
  }

  /** An empty last token makes 0 the last price. */
  lemma LastTokenEmpty(tokens: seq<string>)
    requires tokens != [] && tokens[|tokens| - 1] == []
    ensures PricesOf(tokens) != [] && PricesOf(tokens)[|PricesOf(tokens)| - 1] == Zero
  {
    EmptyTokenZero(tokens, |tokens| - 1);
    PresentLastIs(Numbers(tokens), Zero);
  }

  /** An empty token converts to 0. */
  lemma EmptyTokenZero(tokens: seq<string>, k: nat)
    requires k < |tokens| && tokens[k] == []
    ensures Numbers(tokens)[k] == Some(Zero)
  {
    BlankIsZero([]);
  }

  /** Text that starts with a lower-case letter and does not end with white space is
      not a number. */
  lemma LetterIsNaN(t: string)
    requires t != [] && 'a' <= t[0] <= 'z' && !IsSpace(t[|t| - 1])
    ensures ToNumber(t) == None
  {
    TrimUnchanged(t);
    assert DigitRun(t) == 0;
    assert t[..0] == [] && t[0..] == t;
  }

  // ---- writing prices back into the text box ----

  /** `vals.join(',')`. */
  function JoinNumbers(vals: seq<Num>): string {
    Join(seq(|vals|, i requires 0 <= i < |vals| => ToText(vals[i])), ",")
  }

  /** Prices written back into the text box read back as the same prices, when there
      is at least one. */
  lemma ManualPricesJoin(vals: seq<Num>)
    requires |vals| > 0
    ensures ManualPrices(JoinNumbers(vals)) == vals
  {
    var texts := seq(|vals|, i requires 0 <= i < |vals| => ToText(vals[i]));
    forall k | 0 <= k < |texts|
      ensures IsBareToken(texts[k])
    {
      ToTextIsOneToken(vals[k]);
    }
    SplitJoinRoundTrip(texts);
    var ns := Numbers(Tokens(JoinNumbers(vals)));
    forall k | 0 <= k < |ns| ensures ns[k] == Some(vals[k]) {
      ToNumberToText(vals[k]);
    }
    PresentAll(ns);
  }

  /** With no prices the text is empty, and empty text reads as the one price 0: the
      round trip needs at least one price. */
  lemma EmptyJoin()
    ensures JoinNumbers([]) == [] && ManualPrices(JoinNumbers([])) == [Zero]
  {
    assert Split([], SpaceOrCommaRun) == [[]];
    BlankIsZero([]);
    assert Numbers(Tokens([])) == [Some(Zero)];
  }

  /** Reading the text box, writing the prices back and reading again gives the same
      prices whenever the first reading found any. */
  lemma ManualPricesSettle(text: string)
    requires ManualPrices(text) != []
    ensures ManualPrices(JoinNumbers(ManualPrices(text))) == ManualPrices(text)
  {
    ManualPricesJoin(ManualPrices(text));
  }

  /** Text with no number in it reads as no prices, but writing no prices back gives
      empty text, which reads as `[0]`. */
  lemma ManualPricesUnsettled()
    ensures ManualPrices("abc") == []
    ensures ManualPrices(JoinNumbers(ManualPrices("abc"))) == [Zero]
  {
    WordIsNaN("abc");
    EmptyJoin();
  }

  /** A single word starting with a lower-case letter is one token, and NaN. */
  lemma WordIsNaN(w: string)
    requires w != [] && 'a' <= w[0] <= 'z'
    requires forall i :: 0 <= i < |w| ==> !InRun(w[i], SpaceOrCommaRun)
    ensures ManualPrices(w) == []
  {
    NoSeparator(w, SpaceOrCommaRun);
    LetterIsNaN(w);
    assert Numbers(Tokens(w)) == [None];
  }

  // ---- the upload ----

  /** What a read CSV file writes into the dashboard: the new prices and the new text
      of the text box. */
  datatype Upload = Upload(prices: seq<Num>, priceText: string)

  /** The file-read handler on the file's text: with at least one price the prices are
      replaced and written back into the text box joined with commas; with none,
      nothing is written. What it writes is consistent: the text box reads back as
      exactly the uploaded prices, so deriving the prices from the new text again
      changes nothing. */
  function OnCsvText(text: string): (r: Option<Upload>)
    ensures r.Some? <==> CsvValues(text) != []
    ensures r.Some? ==> r.value.prices == CsvValues(text)
    ensures r.Some? ==> r.value.priceText == JoinNumbers(r.value.prices)
    ensures r.Some? ==> ManualPrices(r.value.priceText) == r.value.prices
  {
    var vals := CsvValues(text);
    if |vals| > 0 then
      ManualPricesJoin(vals);
      Some(Upload(vals, JoinNumbers(vals)))
    else None
  }
}
