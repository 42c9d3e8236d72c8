/** One description reads the same from every shape in which Steam sends it. */
module WireForms {
  import opened Decimal
  import opened AssetTypes
  import opened IndexedObject
  import opened AssetClassInfo

  /** The shapes in which a flag arrives. */
  datatype FlagForm = AsBool | AsNumber | AsQuotedNumber | AsQuotedBool

  function FlagText(b: bool, form: FlagForm): string {
    match form
    case AsBool => if b then "true" else "false"
    case AsNumber => if b then "1" else "0"
    case AsQuotedNumber => if b then "\"1\"" else "\"0\""
    case AsQuotedBool => if b then "\"true\"" else "\"false\""
  }

  /** So many double quotes. */
  function Quotes(n: nat): string {
    seq(n, _ => '"')
  }

  predicate Bare(s: string) {
    s == "" || (s[0] != '"' && s[|s| - 1] != '"')
  }

  /** Trimming gives the bare text between the quotes, ... */
  lemma {:induction false} Unquoted(a: nat, s: string, b: nat)
    requires Bare(s)
    ensures TrimQuotes(Quotes(a) + s + Quotes(b)) == s
    decreases a + b
  {
    var raw := Quotes(a) + s + Quotes(b);
    if a > 0 {
      assert raw[1..] == Quotes(a - 1) + s + Quotes(b);
      Unquoted(a - 1, s, b);
    } else if b > 0 && s == "" {
      assert raw[1..] == Quotes(0) + s + Quotes(b - 1);
      Unquoted(0, s, b - 1);
    } else if b > 0 {
      assert raw[0] == s[0] && raw[..|raw| - 1] == Quotes(0) + s + Quotes(b - 1);
      Unquoted(0, s, b - 1);
    } else {
      assert raw == s;
    }
  }

  /** ... and every text is some bare text between quotes. */
  lemma {:induction false} Requoted(raw: string) returns (a: nat, b: nat)
    ensures raw == Quotes(a) + TrimQuotes(raw) + Quotes(b) && Bare(TrimQuotes(raw))
    ensures raw != "" && raw[0] == '"' ==> a > 0
  {
    a, b := 0, 0;
    if raw != "" && raw[0] == '"' {
      a, b := Requoted(raw[1..]);
      assert raw == ['"'] + raw[1..];
      QuoteFirst(a, TrimQuotes(raw), b);
      a := a + 1;
    } else if raw != "" && raw[|raw| - 1] == '"' {
      a, b := Requoted(raw[..|raw| - 1]);
      assert raw == raw[..|raw| - 1] + ['"'];
      QuoteLast(a, TrimQuotes(raw), b);
      b := b + 1;
    }
  }

  lemma QuoteFirst(a: nat, s: string, b: nat)
    ensures ['"'] + (Quotes(a) + s + Quotes(b)) == Quotes(a + 1) + s + Quotes(b)
  {
    assert ['"'] + Quotes(a) == Quotes(a + 1);
  }

  lemma QuoteLast(a: nat, s: string, b: nat)
    ensures Quotes(a) + s + Quotes(b) + ['"'] == Quotes(a) + s + Quotes(b + 1)
  {
    assert Quotes(b) + ['"'] == Quotes(b + 1);
  }

  /** The raw text is this text between quotes, with one in front at least. */
  ghost predicate IsQuoted(raw: string, s: string) {
    exists a: nat, b: nat :: a > 0 && raw == Quotes(a) + s + Quotes(b)
  }

  lemma TrimmedIff(raw: string, s: string)
    requires raw != "" && raw[0] == '"' && Bare(s)
    ensures TrimQuotes(raw) == s <==> IsQuoted(raw, s)
  {
    if IsQuoted(raw, s) {
      var a: nat, b: nat :| a > 0 && raw == Quotes(a) + s + Quotes(b);
      Unquoted(a, s, b);
    } else {
      var a, b := Requoted(raw);
    }
  }

  lemma QuotedStarts(raw: string, s: string)
    ensures IsQuoted(raw, s) ==> raw != "" && raw[0] == '"'
  {
    if IsQuoted(raw, s) {
      var a: nat, b: nat :| a > 0 && raw == Quotes(a) + s + Quotes(b);
      assert raw[0] == Quotes(a)[0];
    }
  }

  /** Exactly these raw texts read as false: none, a bare 0, what starts with f, and quoted nothing, 0 or false. */
  lemma FlagFalseIff(raw: string)
    ensures !FlagToBool(raw) <==>
              || raw == "" || raw == "0" || raw[0] == 'f'
              || IsQuoted(raw, "") || IsQuoted(raw, "0") || IsQuoted(raw, "false")
  {
    if raw != "" && raw[0] == '"' {
      TrimmedIff(raw, "");
      TrimmedIff(raw, "0");
      TrimmedIff(raw, "false");
    } else {
      QuotedStarts(raw, "");
      QuotedStarts(raw, "0");
      QuotedStarts(raw, "false");
    }
  }

  /** Every shape of a flag reads as the flag; one that is missing or an empty string reads as false. */
  lemma FlagReadsBack(b: bool, form: FlagForm)
    ensures FlagToBool(FlagText(b, form)) == b
    ensures !FlagToBool("") && !FlagToBool("\"\"")
  {
    assert "\"\""[1..] == "\"" && "\""[1..] == "";
    var s := match form case AsQuotedNumber => FlagText(b, AsNumber) case _ => FlagText(b, AsBool);
    Unquoted(1, s, 1);
    assert form.AsQuotedNumber? || form.AsQuotedBool? ==> FlagText(b, form) == Quotes(1) + s + Quotes(1);
  }

  /** The shapes in which a list arrives. */
  datatype ListForm = AsArray | AsIndexedObject

  function ListField<T>(xs: seq<T>, form: ListForm): Field<T> {
    match form
    case AsArray => Array(xs)
    case AsIndexedObject => Object(Encode(xs))
  }

  lemma ListReadsBack<T>(xs: seq<T>, form: ListForm, order: seq<string>)
    requires |xs| <= MAX_INT && IsFieldOrder(ListField(xs, form), order)
    ensures Decoded(ListField(xs, form), order) == xs
  {
    if form.AsIndexedObject? {
      RoundTrip(xs, order);
    }
  }

  /** The shapes of the fields of one entry. */
  datatype Forms = Forms(
    tradable: FlagForm,
    marketable: FlagForm,
    commodity: FlagForm,
    tags: ListForm,
    descriptions: ListForm,
    actions: ListForm,
    fraudWarnings: ListForm
  )

  /** The entry that carries a description in these shapes. */
  function WireOf(d: AssetDescription, fs: Forms): Wire {
    Wire(
      d.ClassID, d.InstanceID, d.Name, d.MarketHashName, d.Type, d.IconURL, d.IconURLLarge,
      FlagText(d.Tradable, fs.tradable), FlagText(d.Marketable, fs.marketable), FlagText(d.Commodity, fs.commodity),
      ListField(d.Tags, fs.tags), ListField(d.Descriptions, fs.descriptions),
      ListField(d.Actions, fs.actions), ListField(d.FraudWarnings, fs.fraudWarnings))
  }

  ghost predicate ListsFit(d: AssetDescription) {
    |d.Tags| <= MAX_INT && |d.Descriptions| <= MAX_INT && |d.Actions| <= MAX_INT && |d.FraudWarnings| <= MAX_INT
  }

  /** Callers see the same description whichever shapes the endpoint used, in every iteration order. */
  lemma DescriptionReadsBack(d: AssetDescription, fs: Forms, os: FieldOrders)
    requires ListsFit(d) && AreFieldOrders(WireOf(d, fs), os)
    ensures Described(WireOf(d, fs), d.AppID, AssetClassKey(d.ClassID, d.InstanceID), os) == d
  {
    FlagReadsBack(d.Tradable, fs.tradable);
    FlagReadsBack(d.Marketable, fs.marketable);
    FlagReadsBack(d.Commodity, fs.commodity);
    ListReadsBack(d.Tags, fs.tags, os.tags);
    ListReadsBack(d.Descriptions, fs.descriptions, os.descriptions);
    ListReadsBack(d.Actions, fs.actions, os.actions);
    ListReadsBack(d.FraudWarnings, fs.fraudWarnings, os.fraudWarnings);
  }
}
