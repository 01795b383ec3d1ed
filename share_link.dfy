/** The blog page's shareable URL: `updateURL` writes the selected category
    into the query, and loading that URL reads it back through
    `getUrlParams` and `getCategoryFromURL`.

    `encode` stands for `encodeURIComponent` and `decode` (or `formDecode`)
    for the form decoding `URLSearchParams` applies to each value, which
    also reads `+` as a space; the model only assumes
    `decode(encode(s)) == s`. The second decoding of the source,
    `decodeURIComponent`, is a separate function `uriDecode`, which keeps
    `+` as it is. */
module ShareLink {
  import UrlParams
  import BlogCategories

  /** A location: its path and its query as raw (still encoded) pairs. */
  datatype Location = Location(path: string, query: seq<(string, string)>)

  function QueryText(query: seq<(string, string)>): string {
    if query == [] then []
    else (if |query| == 1 then [] else QueryText(query[..|query| - 1]) + "&")
         + query[|query| - 1].0 + "=" + query[|query| - 1].1
  }

  /** The location written out as a URL string. */
  function Href(loc: Location): string {
    loc.path + (if loc.query == [] then "" else "?" + QueryText(loc.query))
  }

  /** The location `updateURL(category)` passes to `history.replaceState`. */
  function ShareLocation(category: string, encode: string -> string): (loc: Location)
    ensures category == BlogCategories.All ==> Href(loc) == "blog.html"
    ensures category != BlogCategories.All ==> Href(loc) == "blog.html?category=" + encode(category)
  {
    if category == BlogCategories.All then Location("blog.html", [])
    else Location("blog.html", [("category", encode(category))])
  }

  /** The pairs `URLSearchParams` yields for a location: values decoded once. */
  function SearchEntries(loc: Location, decode: string -> string): seq<(string, string)> {
    UrlParams.DecodeValues(loc.query, decode)
  }

  /** `getCategoryFromURL` over the object `getUrlParams` builds from
      `entries`: the value of the last `category` pair, or `'all'` when
      there is none or it is empty. */
  lemma ReadCategory(entries: seq<(string, string)>)
    ensures (forall i :: 0 <= i < |entries| ==> entries[i].0 != "category")
            ==> BlogCategories.CategoryFromParams(UrlParams.Params(entries)) == BlogCategories.All
    ensures forall i :: UrlParams.LastWithKey(entries, "category", i) ==>
              BlogCategories.CategoryFromParams(UrlParams.Params(entries))
              == if entries[i].1 == [] then BlogCategories.All else entries[i].1
  {
    forall i | UrlParams.LastWithKey(entries, "category", i)
      ensures BlogCategories.CategoryFromParams(UrlParams.Params(entries))
              == if entries[i].1 == [] then BlogCategories.All else entries[i].1
    {
      UrlParams.LastPairWins(entries, i);
    }
  }

  /** The category a page loaded at `loc` starts with, reading the query
      with the intended single decoding: the decoded value of the last
      `category` pair, or `'all'` when there is none or it is empty. */
  function CategoryAt(loc: Location, decode: string -> string): (c: string)
    ensures c != []
    ensures (forall i :: 0 <= i < |loc.query| ==> loc.query[i].0 != "category") ==> c == BlogCategories.All
    ensures forall i :: UrlParams.LastWithKey(loc.query, "category", i) ==>
              c == if decode(loc.query[i].1) == [] then BlogCategories.All else decode(loc.query[i].1)
  {
    var entries := SearchEntries(loc, decode);
    assert forall i :: UrlParams.LastWithKey(loc.query, "category", i) ==> UrlParams.LastWithKey(entries, "category", i);
    ReadCategory(entries);
    BlogCategories.CategoryFromParams(UrlParams.Params(entries))
  }

  /** The category a page loaded at `loc` starts with as the source reads
      it: `getUrlParams` runs `decodeURIComponent` (`uriDecode`) over values
      that `URLSearchParams` has already decoded (`formDecode`). */
  function CategoryAtAsWritten(loc: Location, formDecode: string -> string, uriDecode: string -> string): (c: string)
    ensures c != []
    ensures (forall i :: 0 <= i < |loc.query| ==> loc.query[i].0 != "category") ==> c == BlogCategories.All
    ensures forall i :: UrlParams.LastWithKey(loc.query, "category", i) ==>
              var v := uriDecode(formDecode(loc.query[i].1));
              c == if v == [] then BlogCategories.All else v
  {
    var entries := UrlParams.DecodeValues(SearchEntries(loc, formDecode), uriDecode);
    assert forall i :: UrlParams.LastWithKey(loc.query, "category", i) ==> UrlParams.LastWithKey(entries, "category", i);
    ReadCategory(entries);
    BlogCategories.CategoryFromParams(UrlParams.Params(entries))
  }

  /** Reloading the shared URL restores the selected category, for every
      category but the empty one (whose `?category=` reads back as `'all'`). */
  lemma ShareLinkRestoresCategory(category: string, encode: string -> string, decode: string -> string)
    requires forall s :: decode(encode(s)) == s
    requires category != []
    ensures CategoryAt(ShareLocation(category, encode), decode) == category
  {
    var loc := ShareLocation(category, encode);
    if category != BlogCategories.All {
      var entries := SearchEntries(loc, decode);
      assert entries == [("category", category)];
      UrlParams.LastPairWins(entries, 0);
    }
  }

  /** As written, the shared URL restores `category` only when
      `decodeURIComponent` leaves it unchanged (and not empty): the form
      decoding undoes `encode`, and the result is `uriDecode(category)`.
      Only the form decoding needs to invert `encode` for this. */
  lemma ShareLinkAsWritten(category: string, encode: string -> string,
                           formDecode: string -> string, uriDecode: string -> string)
    requires forall s :: formDecode(encode(s)) == s
    requires category != BlogCategories.All
    ensures CategoryAtAsWritten(ShareLocation(category, encode), formDecode, uriDecode)
            == (if uriDecode(category) == [] then BlogCategories.All else uriDecode(category))
  {
    var loc := ShareLocation(category, encode);
    var entries := UrlParams.DecodeValues(SearchEntries(loc, formDecode), uriDecode);
    assert entries == [("category", uriDecode(category))];
    UrlParams.LastPairWins(entries, 0);
  }

  /** A minimal percent codec: `%` is written as `%25` and read back;
      every other character stands for itself. */
  function EscapePercent(s: string): string {
    if s == [] then [] else (if s[0] == '%' then "%25" else [s[0]]) + EscapePercent(s[1..])
  }

  function UnescapePercent(s: string): string {
    if s == [] then []
    else if |s| >= 3 && s[..3] == "%25" then "%" + UnescapePercent(s[3..])
    else [s[0]] + UnescapePercent(s[1..])
  }

  lemma {:induction false} UnescapeEscape(s: string)
    ensures UnescapePercent(EscapePercent(s)) == s
  {
    if s != [] {
      var e := EscapePercent(s);
      var rest := EscapePercent(s[1..]);
      UnescapeEscape(s[1..]);
      if s[0] == '%' {
        assert e == "%25" + rest && e[..3] == "%25" && e[3..] == rest;
      } else {
        assert e == [s[0]] + rest && e[1..] == rest;
      }
      assert s == [s[0]] + s[1..];
    }
  }

  /** With that codec standing for both decodings (they agree on `%25`),
      the category `%25` is shared as `blog.html?category=%2525` and comes
      back as `%`. */
  lemma ShareLinkAsWrittenLosesPercent()
    ensures forall s :: UnescapePercent(EscapePercent(s)) == s
    ensures CategoryAtAsWritten(ShareLocation("%25", EscapePercent), UnescapePercent, UnescapePercent) == "%"
    ensures CategoryAt(ShareLocation("%25", EscapePercent), UnescapePercent) == "%25"
  {
    forall s ensures UnescapePercent(EscapePercent(s)) == s {
      UnescapeEscape(s);
    }
    ShareLinkAsWritten("%25", EscapePercent, UnescapePercent, UnescapePercent);
    ShareLinkRestoresCategory("%25", EscapePercent, UnescapePercent);
    assert UnescapePercent("%25") == "%" by {
      assert "%25"[3..] == [];
    }
  }
}
