/** `parseResults`: the heuristic, positional parser that turns the
    whitespace-collapsed text of each listing into a record, and the
    run-wide id stamping done while mapping over a page's listings.

    The text is split on single spaces into `columns`; each field is found
    by a marker token. Two places in the parser read an array slot that
    does not exist and then call `.replace` on `undefined`, which throws a
    TypeError and aborts the whole run: they are the `Err` results here. */
module ListingParser {
  import opened Wrappers
  import opened JsText

  /** One entry of the `results` array that `scrapeCurrentPage` hands over:
      the heading, the collapsed full text, the already normalised area, the
      build-year text, and the page's region and category. */
  datatype ScrapedListing = ScrapedListing(
    title: string,
    textContent: string,
    m2: string,
    letoGradnje: string,
    lokacija: string,
    tip: string)

  /** Private seller (`Zasebna`) or agency (`Agencija`). */
  datatype OfferType = Zasebna | Agencija

  /** One output row. Optional fields are `None` where the source leaves
      `null` or `undefined`. The room count is kept as the normalised text
      handed to `parseFloat`. */
  datatype Listing = Listing(
    id: int,
    tip: string,
    stSob: Option<string>,
    hisaTip: Option<string>,
    lokacija: string,
    lokacijaPodrobno: string,
    m2: string,
    letoGradnje: string,
    letoAdaptacije: Option<string>,
    tipPonudbe: OfferType,
    cena: Option<string>)

  /** The two TypeErrors the parser can raise: `columns[cenaIndex - 1]` when
      `€` is the very first token, and `columns[adaptiranoIndex + 2]` past
      the end of the tokens. */
  datatype ParseError = PriceTokenUndefined | RenovationTokenUndefined(index: int)

  /** A JavaScript value as far as the guard on the renovation year needs
      one: array slots hold strings or are `undefined`; the guard compares
      them with the number -1. Strict (in)equality is structural here. */
  datatype JsValue = JsString(s: string) | JsNumber(n: int) | Undefined

  /** `columns[i]`, `undefined` outside the array. */
  function At(columns: seq<string>, i: int): (v: JsValue)
    ensures v.Undefined? <==> !(0 <= i < |columns|)
    ensures 0 <= i < |columns| ==> v == JsString(columns[i])
  {
    if 0 <= i < |columns| then JsString(columns[i]) else Undefined
  }

  /** Renovation values that are layout words, not years. */
  const NoiseWords: set<string> := {"Stanovanje", "spreglejte", "Hiša"}

  /** `textContent.split(" ")`. */
  function Columns(text: string): (columns: seq<string>)
    ensures |columns| >= 1
    ensures forall k :: 0 <= k < |columns| ==> ' ' !in columns[k]
    ensures Join(columns, ' ') == text
  {
    Split(text, ' ')
  }

  // ---------------------------------------------------------------------
  // Room count (`st_sob`)
  // ---------------------------------------------------------------------

  /** The room count text: taken from the first token containing
      `-sobno`, with the first `-sobno` removed and the first `,` turned into
      `.`; `None` when no token contains `-sobno`. */
  function RoomCount(columns: seq<string>): (r: Option<string>)
    ensures r.None? <==> forall k :: 0 <= k < |columns| ==> !Includes(columns[k], "-sobno")
    ensures r.Some? ==> exists k ::
      && FirstIncluding(columns, "-sobno", k)
      && r.value == ReplaceFirst(ReplaceFirst(columns[k], "-sobno", ""), ",", ".")
  {
    var i := FindIndexIncluding(columns, "-sobno");
    if i == -1 then None
    else Some(ReplaceFirst(ReplaceFirst(columns[i], "-sobno", ""), ",", "."))
  }

  /** A leading token such as `"2,5-sobno"` yields the decimal text `"2.5"`. */
  lemma {:induction false} RoomCountDecimal(whole: string, frac: string, rest: seq<string>)
    requires IsDigits(whole) && IsDigits(frac)
    ensures RoomCount([whole + "," + frac + "-sobno"] + rest) == Some(whole + "." + frac)
  {
    var x := whole + "," + frac;
    var tok := x + "-sobno";
    assert '-' !in x by {
      forall k | 0 <= k < |x| ensures x[k] != '-' {
        if k < |whole| { assert x[k] == whole[k]; }
        else if k > |whole| { assert x[k] == frac[k - |whole| - 1]; }
      }
    }
    ReplaceFirstAfterCleanPrefix(x, "-sobno", "", "");
    assert x + "-sobno" + "" == tok;
    assert x + "" == x;
    assert Includes(tok, "-sobno");
    assert ',' !in whole by {
      forall k | 0 <= k < |whole| ensures whole[k] != ',' {
        assert IsDigit(whole[k]);
      }
    }
    ReplaceFirstAfterCleanPrefix(whole, ",", frac, ".");
    assert ([tok] + rest)[0] == tok;
  }

  // ---------------------------------------------------------------------
  // Offer type (`tip_ponudbe`)
  // ---------------------------------------------------------------------

  /** Private exactly when some token is `Zasebna` (a membership test,
      not a substring test). */
  function OfferTypeOf(columns: seq<string>): (t: OfferType)
    ensures t == Zasebna <==> "Zasebna" in columns
    ensures t == Agencija <==> "Zasebna" !in columns
  {
    if "Zasebna" in columns then Zasebna else Agencija
  }

  // ---------------------------------------------------------------------
  // Price (`cena`)
  // ---------------------------------------------------------------------

  /** The price token cleaned up: the first `",00"` dropped, then the first
      `"` dropped, then only the text before the first remaining `,` kept.
      The result is a comma-free prefix of the intermediate text, cut
      exactly at its first comma. */
  function CleanPrice(token: string): (p: string)
    ensures ',' !in p
    ensures p <= ReplaceFirst(ReplaceFirst(token, ",00", ""), "\"", "")
    ensures var t := ReplaceFirst(ReplaceFirst(token, ",00", ""), "\"", "");
      |p| == |t| || t[|p|] == ','
  {
    var t := ReplaceFirst(ReplaceFirst(token, ",00", ""), "\"", "");
    var pieces := Split(t, ',');
    FirstPieceIsPrefix(t, ',');
    pieces[0]
  }

  /** The first piece of a split is the text up to the first separator. */
  lemma FirstPieceIsPrefix(s: string, sep: char)
    ensures Split(s, sep)[0] <= s
    ensures |Split(s, sep)[0]| == |s| || s[|Split(s, sep)[0]|] == sep
  {
  }

  /** A Slovenian amount with two decimals, such as `"185.000,00"` or
      `"1.250,50"`, is cut down to its whole part. */
  lemma {:induction false} CleanPriceTwoDecimals(whole: string, cents: string)
    requires ',' !in whole && '"' !in whole
    requires |cents| == 2 && IsDigits(cents)
    ensures CleanPrice(whole + "," + cents) == whole
  {
    var tok := whole + "," + cents;
    assert tok == whole + [','] + cents;
    assert '"' !in cents by { assert IsDigit(cents[0]) && IsDigit(cents[1]); }
    assert ',' !in cents by { assert IsDigit(cents[0]) && IsDigit(cents[1]); }
    if cents == "00" {
      ReplaceFirstAfterCleanPrefix(whole, ",00", "", "");
      assert whole + ",00" + "" == tok;
      assert whole + "" == whole;
      ReplaceFirstAbsent(whole, "\"", "");
      assert Split(whole, ',') == [whole];
    } else {
      assert forall j :: 0 <= j < |tok| && j != |whole| ==> tok[j] != ',' by {
        forall j | 0 <= j < |tok| && j != |whole| ensures tok[j] != ',' {
          if j < |whole| { assert tok[j] == whole[j]; }
          else { assert tok[j] == cents[j - |whole| - 1]; }
        }
      }
      assert tok[|whole|..|whole| + 3] == "," + cents;
      assert forall j :: OccursAt(tok, ",00", j) ==> j == |whole| by {
        forall j | OccursAt(tok, ",00", j) ensures j == |whole| {
          OccurrenceStartsWithHead(tok, ",00", j);
        }
      }
      assert (",00")[1..] == "00" && ("," + cents)[1..] == cents;
      assert !OccursAt(tok, ",00", |whole|);
      assert '"' !in tok;
      ReplaceFirstAbsent(tok, "\"", "");
      SplitAtFirst(whole, ',', cents);
    }
  }

  /** `cena`: `None` when no token is `€`; an error when `€` is the first
      token (the token before it is `undefined`); otherwise the cleaned-up
      token just before the first `€`. */
  function Price(columns: seq<string>): (r: Result<Option<string>, ParseError>)
    ensures r == Ok(None) <==> "€" !in columns
    ensures r.Err? <==> |columns| > 0 && columns[0] == "€"
    ensures r.Ok? && r.value.Some? ==> exists k ::
      && FirstIndex(columns, "€", k)
      && k >= 1
      && r.value.value == CleanPrice(columns[k - 1])
    ensures r.Ok? && r.value.Some? ==> ',' !in r.value.value
  {
    var cenaIndex := ArrayIndexOf(columns, "€");
    if cenaIndex == -1 then Ok(None)
    else match At(columns, cenaIndex - 1)
      case JsString(token) => Ok(Some(CleanPrice(token)))
      case _ => Err(PriceTokenUndefined)
  }

  // ---------------------------------------------------------------------
  // House subtype (`hisa_tip`)
  // ---------------------------------------------------------------------

  /** `hisa_tip`: only for the category `hisa`, the token after the first
      `Hiša,`. When the marker is missing, `indexOf` gives -1 and the `+ 1`
      lands on token 0; when the marker is the last token the slot after it
      is `undefined`. */
  function HouseSubtype(tip: string, columns: seq<string>): (r: Option<string>)
    ensures tip != "hisa" ==> r == None
    ensures tip == "hisa" && "Hiša," !in columns ==>
      r == (if |columns| > 0 then Some(columns[0]) else None)
    ensures tip == "hisa" && "Hiša," in columns ==> exists k ::
      && FirstIndex(columns, "Hiša,", k)
      && r == (if k + 1 < |columns| then Some(columns[k + 1]) else None)
  {
    if tip != "hisa" then None
    else
      var i := ArrayIndexOf(columns, "Hiša,");
      if i + 1 < |columns| then Some(columns[i + 1]) else None
  }

  // ---------------------------------------------------------------------
  // Renovation year (`leto_adaptacije`)
  // ---------------------------------------------------------------------

  /** The renovation token cleaned up: the first `,` and the first `"`
      dropped. */
  function StripRenovation(token: string): (t: string)
    ensures exists noComma :: ReplacedFirst(token, ",", "", noComma) && ReplacedFirst(noComma, "\"", "", t)
    ensures !Includes(token, ",") && !Includes(token, "\"") ==> t == token
    ensures |t| == |token| - (if Includes(token, ",") then 1 else 0)
                           - (if Includes(ReplaceFirst(token, ",", ""), "\"") then 1 else 0)
  {
    ReplaceFirst(ReplaceFirst(token, ",", ""), "\"", "")
  }

  /** The candidate renovation value. The guard compares the slot
      `columns[adaptiranoIndex]` (a string or `undefined`) with the number
      -1, which is never strictly equal, so the guard always passes: with
      `adaptirano` missing the index -1 + 2 reads token 1. Reading past the
      end of the tokens throws. */
  function RenovationCandidate(columns: seq<string>): (r: Result<Option<string>, ParseError>)
    ensures r != Ok(None)
    ensures r.Err? ==> r.error.RenovationTokenUndefined?
    ensures "adaptirano" !in columns ==>
      && (r.Ok? <==> |columns| >= 2)
      && (r.Ok? ==> r.value == Some(StripRenovation(columns[1])))
      && (r.Err? ==> r.error == RenovationTokenUndefined(1))
    ensures "adaptirano" in columns ==> exists k ::
      && FirstIndex(columns, "adaptirano", k)
      && (r.Ok? <==> k + 2 < |columns|)
      && (r.Ok? ==> r.value == Some(StripRenovation(columns[k + 2])))
      && (r.Err? ==> r.error == RenovationTokenUndefined(k + 2))
  {
    var adaptiranoIndex := ArrayIndexOf(columns, "adaptirano");
    if At(columns, adaptiranoIndex) != JsNumber(-1) then
      match At(columns, adaptiranoIndex + 2)
      case JsString(token) => Ok(Some(StripRenovation(token)))
      case _ => Err(RenovationTokenUndefined(adaptiranoIndex + 2))
    else Ok(None)
  }

  /** `leto_gradnje > 2016` on the build-year text, read as a number only
      when it is a non-empty string of decimal digits; every other text is
      taken as not after 2016. (`Number()` also accepts signs, decimals,
      exponents, hexadecimal and `Infinity`, which can compare above 2016;
      those forms are not modelled.) Within the model, only a numeral of at
      least four digits passes. */
  function BuildYearAfter2016(letoGradnje: string): (after: bool)
    ensures after ==> IsDigits(letoGradnje) && |letoGradnje| >= 4
    ensures !IsDigits(letoGradnje) ==> !after
  {
    if |letoGradnje| > 0 && IsDigits(letoGradnje) then
      DecimalValueBound(letoGradnje);
      assert |letoGradnje| <= 3 ==> Pow10(|letoGradnje|) <= 1000;
      DecimalValue(letoGradnje) > 2016
    else false
  }

  /** A build year written as a plain number is "after 2016" exactly when
      the number is. */
  lemma BuildYearAfter2016Show(n: nat)
    ensures BuildYearAfter2016(Show(n)) <==> n > 2016
  {
    DecimalValueShow(n);
  }

  /** `leto_adaptacije`: the candidate, except that it is nulled when it is
      one of the noise words or when the building is newer than 2016. */
  function Renovation(columns: seq<string>, letoGradnje: string): (r: Result<Option<string>, ParseError>)
    ensures r.Err? <==> RenovationCandidate(columns).Err?
    ensures r.Err? ==> r == Err(RenovationCandidate(columns).error)
    ensures r.Ok? && BuildYearAfter2016(letoGradnje) ==> r.value == None
    ensures r.Ok? ==> (r.value == None <==>
      RenovationCandidate(columns).value.value in NoiseWords || BuildYearAfter2016(letoGradnje))
    ensures r.Ok? && r.value.Some? ==> Some(r.value.value) == RenovationCandidate(columns).value
  {
    match RenovationCandidate(columns)
    case Err(e) => Err(e)
    case Ok(adaptirano) =>
      if adaptirano.None? then Ok(None)
      else if adaptirano.value in NoiseWords || BuildYearAfter2016(letoGradnje) then Ok(None)
      else Ok(adaptirano)
  }

  /** The renovation year of a listing that does carry `adaptirano`
      followed by two tokens: a plain build year after 2016 nulls it; a
      build year up to 2016 keeps the cleaned token unless it is a noise word. */
  lemma {:induction false} RenovationByBuildYear(columns: seq<string>, k: nat, built: nat)
    requires FirstIndex(columns, "adaptirano", k) && k + 2 < |columns|
    ensures built > 2016 ==> Renovation(columns, Show(built)) == Ok(None)
    ensures built <= 2016 && StripRenovation(columns[k + 2]) !in NoiseWords ==>
      Renovation(columns, Show(built)) == Ok(Some(StripRenovation(columns[k + 2])))
  {
    BuildYearAfter2016Show(built);
    ArrayIndexOfFirst(columns, "adaptirano", k);
    assert RenovationCandidate(columns) == Ok(Some(StripRenovation(columns[k + 2])));
  }

  // ---------------------------------------------------------------------
  // One listing, and the map over a page
  // ---------------------------------------------------------------------

  /** One call of the `map` callback with the counter at `id`. The price is
      evaluated before the renovation year, so a listing that fails both
      ways reports the price error. */
  function ParseListing(b: ScrapedListing, id: int): (r: Result<Listing, ParseError>)
    ensures var columns := Columns(b.textContent);
      r.Err? <==> Price(columns).Err? || Renovation(columns, b.letoGradnje).Err?
    ensures var columns := Columns(b.textContent);
      Price(columns).Err? ==> r == Err(PriceTokenUndefined)
    ensures var columns := Columns(b.textContent);
      Price(columns).Ok? && r.Err? ==> Err(r.error) == Renovation(columns, b.letoGradnje)
    ensures r.Ok? ==>
      && r.value.id == id
      && r.value.tip == b.tip
      && r.value.lokacija == b.lokacija
      && r.value.lokacijaPodrobno == b.title
      && r.value.m2 == b.m2
      && r.value.letoGradnje == b.letoGradnje
    ensures var columns := Columns(b.textContent); r.Ok? ==>
      && (r.value.tipPonudbe == Zasebna <==> "Zasebna" in columns)
      && (r.value.cena.None? <==> "€" !in columns)
      && (r.value.stSob.None? <==> forall k :: 0 <= k < |columns| ==> !Includes(columns[k], "-sobno"))
      && (r.value.hisaTip.Some? ==> b.tip == "hisa")
      && (BuildYearAfter2016(b.letoGradnje) ==> r.value.letoAdaptacije.None?)
    ensures var columns := Columns(b.textContent); r.Ok? ==>
      && r.value.tipPonudbe == OfferTypeOf(columns)
      && Ok(r.value.cena) == Price(columns)
      && r.value.stSob == RoomCount(columns)
      && r.value.hisaTip == HouseSubtype(b.tip, columns)
      && Ok(r.value.letoAdaptacije) == Renovation(columns, b.letoGradnje)
  {
    var columns := Columns(b.textContent);
    match Price(columns)
    case Err(e) => Err(e)
    case Ok(cena) =>
      match Renovation(columns, b.letoGradnje)
      case Err(e) => Err(e)
      case Ok(adaptirano) =>
        Ok(Listing(
          id,
          b.tip,
          RoomCount(columns),
          HouseSubtype(b.tip, columns),
          b.lokacija,
          b.title,
          b.m2,
          b.letoGradnje,
          adaptirano,
          OfferTypeOf(columns),
          cena))
  }

  /** A page's parsed listings and the counter after them. */
  datatype Batch = Batch(listings: seq<Listing>, next: int)

  /** What each call of the `map` callback yields over a page, the i-th
      call seeing the counter at `counter + i`. */
  function PageOutcomes(blocks: seq<ScrapedListing>, counter: int): (outcomes: seq<Result<Listing, ParseError>>)
    ensures |outcomes| == |blocks|
    ensures forall i :: 0 <= i < |blocks| ==> outcomes[i] == ParseListing(blocks[i], counter + i)
    ensures forall i :: 0 <= i < |blocks| && outcomes[i].Ok? ==> outcomes[i].value.id == counter + i
  {
    seq(|blocks|, i requires 0 <= i < |blocks| => ParseListing(blocks[i], counter + i))
  }

  /** `parseResults` with the run-wide counter at `counter`: every listing
      of the page in order, the i-th stamped with `counter + i`, and the
      counter advanced by the number of listings. The first listing that
      throws aborts the whole page with its error. */
  function ParseResults(blocks: seq<ScrapedListing>, counter: int): (r: Result<Batch, ParseError>)
    ensures var outcomes := PageOutcomes(blocks, counter);
      r.Ok? ==>
      && |r.value.listings| == |blocks|
      && r.value.next == counter + |blocks|
      && forall i :: 0 <= i < |blocks| ==>
           && r.value.listings[i].id == counter + i
           && outcomes[i] == Ok(r.value.listings[i])
    ensures var outcomes := PageOutcomes(blocks, counter);
      r.Err? <==> exists i :: 0 <= i < |blocks| && outcomes[i].Err?
    ensures var outcomes := PageOutcomes(blocks, counter);
      r.Err? ==> exists i ::
      && 0 <= i < |blocks|
      && outcomes[i] == Err(r.error)
      && forall j :: 0 <= j < i ==> outcomes[j].Ok?
  {
    match Sequence(PageOutcomes(blocks, counter))
    case Err(e) => Err(e)
    case Ok(listings) => Ok(Batch(listings, counter + |blocks|))
  }
}
