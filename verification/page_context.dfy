/** The context `scrapeCurrentPage` derives from the address of the page it
    is reading, and the normalisation of the area text of each listing.
    - region (`lokacija`): the first capture of `/oglasi-prodaja\/([^\/]+)/`,
      or `""` when the expression does not match;
    - category (`tip`): `url.split("/")[5] || ""`;
    - area (`m2`): `raw.replace(" m2", "").replace(",", ".")`. */
module PageContext {
  import opened JsText

  const RegionMarker: string := "oglasi-prodaja/"

  /** The regular expression matches at position `i`: the marker starts
      there and is followed by at least one character other than `/`. */
  predicate RegionMatchAt(url: string, i: int) {
    OccursAt(url, RegionMarker, i)
    && i + |RegionMarker| < |url|
    && url[i + |RegionMarker|] != '/'
  }

  /** The greedy `[^\/]+` run: the longest prefix of `s` free of `/`. */
  function SlashFreePrefix(s: string): (r: string)
    ensures '/' !in r && r <= s
    ensures |r| == |s| || s[|r|] == '/'
  {
    if '/' in s then s[..CharIndex(s, '/')] else s
  }

  /** Leftmost position at or after `from` where the expression matches, or -1. */
  function RegionMatchFrom(url: string, from: nat): (r: int)
    requires from <= |url|
    ensures r == -1 || (from <= r && RegionMatchAt(url, r))
    ensures forall j :: from <= j && (r == -1 || j < r) ==> !RegionMatchAt(url, j)
    decreases |url| - from
  {
    if RegionMatchAt(url, from) then from
    else if from == |url| then -1
    else RegionMatchFrom(url, from + 1)
  }

  /** The region a listing page belongs to. The regular expression is tried
      at every position from the left, so a marker followed directly by `/`
      (or by nothing) is skipped in favour of a later one; the captured group
      is the whole `/`-free run after the marker. */
  function Region(url: string): (r: string)
    ensures r == "" <==> forall i :: !RegionMatchAt(url, i)
    ensures r != "" ==> '/' !in r
    ensures r != "" ==> exists i ::
      && RegionMatchAt(url, i)
      && (forall j :: 0 <= j < i ==> !RegionMatchAt(url, j))
      && OccursAt(url, RegionMarker + r, i)
      && (i + |RegionMarker| + |r| == |url| || url[i + |RegionMarker| + |r|] == '/')
  {
    var i := RegionMatchFrom(url, 0);
    if i == -1 then ""
    else
      var g := SlashFreePrefix(url[i + |RegionMarker|..]);
      RegionGroup(url, i, g);
      g
  }

  /** The group captured at a match is non-empty and, with the marker in
      front of it, occurs where the match starts. */
  lemma RegionGroup(url: string, i: int, g: string)
    requires RegionMatchAt(url, i)
    requires g == SlashFreePrefix(url[i + |RegionMarker|..])
    ensures g != ""
    ensures OccursAt(url, RegionMarker + g, i)
    ensures i + |RegionMarker| + |g| == |url| || url[i + |RegionMarker| + |g|] == '/'
  {
  }

  /** The listing category: the sixth `/`-separated piece of the address
      (`urlParts[5]`), or `""` when there are fewer pieces. */
  function Category(url: string): (r: string)
    ensures '/' !in r
  {
    var parts := Split(url, '/');
    if |parts| > 5 then parts[5] else ""
  }

  /** An address assembled from `/`-free path pieces yields its sixth piece
      as the category, and `""` when it has at most five pieces. */
  lemma CategoryOfPieces(pieces: seq<string>)
    requires |pieces| >= 1
    requires forall k :: 0 <= k < |pieces| ==> '/' !in pieces[k]
    ensures Category(Join(pieces, '/')) == (if |pieces| > 5 then pieces[5] else "")
  {
    SplitJoin(pieces, '/');
  }

  /** The area text as stored: only the first `" m2"` is dropped and only
      the first `,` becomes `.`; the text is otherwise kept. */
  function NormaliseArea(raw: string): (r: string)
    ensures exists dropped :: ReplacedFirst(raw, " m2", "", dropped) && ReplacedFirst(dropped, ",", ".", r)
    ensures |r| == |raw| - (if Includes(raw, " m2") then 3 else 0)
    ensures !Includes(raw, " m2") && !Includes(raw, ",") ==> r == raw
  {
    var dropped := ReplaceFirst(raw, " m2", "");
    ReplaceFirst(dropped, ",", ".")
  }

  /** A Slovenian decimal area such as `"75,5 m2"` becomes `"75.5"`. */
  lemma {:induction false} NormaliseAreaDecimal(whole: string, frac: string)
    requires IsDigits(whole) && IsDigits(frac)
    ensures NormaliseArea(whole + "," + frac + " m2") == whole + "." + frac
  {
    var x := whole + "," + frac;
    assert ' ' !in x by {
      forall k | 0 <= k < |x| ensures x[k] != ' ' {
        if k < |whole| { assert x[k] == whole[k]; }
        else if k > |whole| { assert x[k] == frac[k - |whole| - 1]; }
      }
    }
    ReplaceFirstAfterCleanPrefix(x, " m2", "", "");
    assert x + " m2" + "" == whole + "," + frac + " m2";
    assert x + "" == x;
    assert ',' !in whole by {
      forall k | 0 <= k < |whole| ensures whole[k] != ',' {
        assert IsDigit(whole[k]);
      }
    }
    ReplaceFirstAfterCleanPrefix(whole, ",", frac, ".");
  }

  /** A whole-number area `"120 m2"` becomes `"120"`. */
  lemma {:induction false} NormaliseAreaWhole(whole: string)
    requires IsDigits(whole)
    ensures NormaliseArea(whole + " m2") == whole
  {
    assert ' ' !in whole by {
      forall k | 0 <= k < |whole| ensures whole[k] != ' ' {
        assert IsDigit(whole[k]);
      }
    }
    ReplaceFirstAfterCleanPrefix(whole, " m2", "", "");
    assert whole + " m2" + "" == whole + " m2";
    assert whole + "" == whole;
    assert ',' !in whole by {
      forall k | 0 <= k < |whole| ensures whole[k] != ',' {
        assert IsDigit(whole[k]);
      }
    }
    ReplaceFirstAbsent(whole, ",", ".");
  }
}
