/** The pieces of the Streamlit front end (app.py) that compute something:
    the image list of a place card, the category lookups, the card title
    and score, and the form check that decides whether the recommender is
    called at all. */
module App {
  import opened SeqUtil
  import opened Wrappers
  import opened RulesTable
  import opened Utils
  import opened Scoring
  import opened Places
  import opened Assembly
  import opened Recommender

  // ---------------------------------------------------------------------
  // Strings: `str.split(sep)` and `str.strip()`

  /** The characters Python's `str.isspace` accepts. */
  predicate IsSpace(c: char) {
    || ('\U{0009}' <= c <= '\U{000D}')
    || ('\U{001C}' <= c <= '\U{0020}')
    || c == '\U{0085}' || c == '\U{00A0}' || c == '\U{1680}'
    || ('\U{2000}' <= c <= '\U{200A}')
    || c == '\U{2028}' || c == '\U{2029}' || c == '\U{202F}' || c == '\U{205F}' || c == '\U{3000}'
  }

  predicate AllSpace(s: string) {
    forall i :: 0 <= i < |s| ==> IsSpace(s[i])
  }

  /** No leading and no trailing whitespace. */
  predicate Stripped(s: string) {
    s == [] || (!IsSpace(s[0]) && !IsSpace(s[|s| - 1]))
  }

  /** `s.split(sep)`: the pieces between the separators, empty ones
      included; there is always one piece more than separators. */
  function Split(s: string, sep: char): (pieces: seq<string>)
    ensures |pieces| >= 1
    ensures forall k :: 0 <= k < |pieces| ==> sep !in pieces[k]
    decreases |s|
  {
    if s == [] then [[]]
    else
      var rest := Split(s[1..], sep);
      if s[0] == sep then [[]] + rest
      else [[s[0]] + rest[0]] + rest[1..]
  }

  /** `sep.join(pieces)` */
  function Join(pieces: seq<string>, sep: char): string
    requires |pieces| >= 1
    decreases |pieces|
  {
    if |pieces| == 1 then pieces[0]
    else pieces[0] + [sep] + Join(pieces[1..], sep)
  }

  /** Joining the pieces of a split gives the string back. */
  lemma {:induction false} JoinSplit(s: string, sep: char)
    ensures Join(Split(s, sep), sep) == s
    decreases |s|
  {
    if s != [] {
      JoinSplit(s[1..], sep);
      var rest := Split(s[1..], sep);
      if s[0] != sep {
        if |rest| > 1 {
          assert rest == [rest[0]] + rest[1..];
          assert Join(rest, sep) == rest[0] + [sep] + Join(rest[1..], sep);
        }
      }
    }
  }

  /** Splitting a join of pieces free of the separator gives the pieces
      back. */
  lemma {:induction false} SplitJoin(pieces: seq<string>, sep: char)
    requires |pieces| >= 1
    requires forall k :: 0 <= k < |pieces| ==> sep !in pieces[k]
    ensures Split(Join(pieces, sep), sep) == pieces
    decreases |pieces|, |pieces[0]|
  {
    var tail := pieces[1..];
    if |pieces| == 1 {
      SplitFree(pieces[0], sep);
    } else if pieces[0] == [] {
      assert forall k :: 0 <= k < |tail| ==> sep !in tail[k] by {
        forall k | 0 <= k < |tail| ensures sep !in tail[k] {
          assert tail[k] == pieces[k + 1];
        }
      }
      SplitJoin(tail, sep);
      assert Join(pieces, sep) == [sep] + Join(tail, sep);
      SplitCons(sep, Join(tail, sep), sep);
      HeadTail(pieces);
    } else {
      var p := pieces[0];
      var shorter := [p[1..]] + tail;
      assert forall k :: 0 <= k < |shorter| ==> sep !in shorter[k] by {
        forall k | 0 <= k < |shorter| ensures sep !in shorter[k] {
          if k > 0 {
            assert shorter[k] == pieces[k];
          }
        }
      }
      SplitJoin(shorter, sep);
      JoinCons(p, tail, sep);
      SplitCons(p[0], Join(shorter, sep), sep);
      assert shorter[0] == p[1..] && shorter[1..] == tail;
      HeadTail(p);
      HeadTail(pieces);
    }
  }

  /** Moving the first character of the first piece out of a join. */
  lemma JoinCons(p: string, tail: seq<string>, sep: char)
    requires p != [] && tail != []
    ensures Join([p] + tail, sep) == [p[0]] + Join([p[1..]] + tail, sep)
  {
    assert ([p] + tail)[1..] == tail;
    assert ([p[1..]] + tail)[1..] == tail;
  }

  /** One step of the split. */
  lemma SplitCons(c: char, t: string, sep: char)
    ensures Split([c] + t, sep) ==
      if c == sep then [[]] + Split(t, sep) else [[c] + Split(t, sep)[0]] + Split(t, sep)[1..]
  {
    assert ([c] + t)[1..] == t;
  }

  /** A string without the separator is a single piece. */
  lemma {:induction false} SplitFree(s: string, sep: char)
    requires sep !in s
    ensures Split(s, sep) == [s]
    decreases |s|
  {
    if s != [] {
      SplitFree(s[1..], sep);
      assert [s[0]] + s[1..] == s;
    }
  }

  /** Every character is the separator or whitespace. */
  predicate SepOrSpace(s: string, sep: char) {
    forall i :: 0 <= i < |s| ==> s[i] == sep || IsSpace(s[i])
  }

  /** Every piece is blank. */
  predicate AllBlank(pieces: seq<string>) {
    forall k :: 0 <= k < |pieces| ==> AllSpace(pieces[k])
  }

  lemma AllSpaceSame(t: string, u: string)
    requires AllSpace(t) && t == u
    ensures AllSpace(u)
  {
  }

  lemma AllSpaceSnoc(t: string, c: char)
    ensures AllSpace(t + [c]) <==> AllSpace(t) && IsSpace(c)
  {
    var s := t + [c];
    assert s[|t|] == c;
    assert forall i :: 0 <= i < |t| ==> t[i] == s[i];
  }

  lemma AllSpaceCons(c: char, t: string)
    ensures AllSpace([c] + t) <==> IsSpace(c) && AllSpace(t)
  {
    var s := [c] + t;
    assert s[0] == c;
    assert forall i :: 0 <= i < |t| ==> t[i] == s[i + 1];
  }

  lemma AllBlankCons(p: string, ps: seq<string>)
    ensures AllBlank([p] + ps) <==> AllSpace(p) && AllBlank(ps)
  {
    var all := [p] + ps;
    assert all[0] == p;
    assert forall k :: 0 <= k < |ps| ==> ps[k] == all[k + 1];
  }

  lemma AllBlankHead(pieces: seq<string>)
    requires pieces != []
    ensures AllBlank(pieces) <==> AllSpace(pieces[0]) && AllBlank(pieces[1..])
  {
    var tail := pieces[1..];
    assert forall k :: 0 <= k < |tail| ==> tail[k] == pieces[k + 1];
  }

  /** A string made only of separators and whitespace is exactly one
      whose pieces are all blank. */
  lemma {:induction false} SplitBlank(s: string, sep: char)
    ensures SepOrSpace(s, sep) <==> AllBlank(Split(s, sep))
    decreases |s|
  {
    if s != [] {
      SplitBlank(s[1..], sep);
      var rest := Split(s[1..], sep);
      assert SepOrSpace(s, sep) <==> (s[0] == sep || IsSpace(s[0])) && SepOrSpace(s[1..], sep) by {
        assert forall i :: 0 < i < |s| ==> s[i] == s[1..][i - 1];
      }
      if s[0] == sep {
        AllBlankCons([], rest);
      } else {
        AllBlankCons([s[0]] + rest[0], rest[1..]);
        AllSpaceCons(s[0], rest[0]);
        AllBlankCons(rest[0], rest[1..]);
        assert [rest[0]] + rest[1..] == rest;
      }
    }
  }

  /** `s.lstrip()`: the suffix left after cutting off the leading
      whitespace. */
  function LStrip(s: string): (r: string)
    ensures |r| <= |s| && r == s[|s| - |r|..]
    ensures r == [] || !IsSpace(r[0])
    decreases |s|
  {
    if s != [] && IsSpace(s[0]) then LStrip(s[1..]) else s
  }

  /** `s.rstrip()`: the prefix left after cutting off the trailing
      whitespace. */
  function RStrip(s: string): (r: string)
    ensures r <= s
    ensures r == [] || !IsSpace(r[|r| - 1])
    decreases |s|
  {
    if s != [] && IsSpace(s[|s| - 1]) then RStrip(s[..|s| - 1]) else s
  }

  /** `s.strip()`: `s` with its leading and trailing whitespace cut off. */
  function Strip(s: string): (r: string)
    ensures |r| <= |s|
    ensures Stripped(r)
  {
    RStrip(LStrip(s))
  }

  /** Left-stripping leaves nothing exactly when the string is all
      whitespace. */
  lemma {:induction false} LStripBlank(s: string)
    ensures LStrip(s) == [] <==> AllSpace(s)
    decreases |s|
  {
    if s != [] {
      LStripBlank(s[1..]);
      AllSpaceCons(s[0], s[1..]);
      HeadTail(s);
    }
  }

  /** Right-stripping leaves nothing exactly when the string is all
      whitespace. */
  lemma {:induction false} RStripBlank(s: string)
    ensures RStrip(s) == [] <==> AllSpace(s)
    decreases |s|
  {
    if s != [] {
      var init := s[..|s| - 1];
      RStripBlank(init);
      assert AllSpace(s) <==> AllSpace(init) && IsSpace(s[|s| - 1]) by {
        assert forall i :: 0 <= i < |init| ==> init[i] == s[i];
      }
    }
  }

  /** Stripping leaves nothing exactly when the string is all whitespace. */
  lemma StripBlank(s: string)
    ensures Strip(s) == [] <==> AllSpace(s)
  {
    var l := LStrip(s);
    LStripBlank(s);
    RStripBlank(l);
    if l != [] {
      assert !IsSpace(l[0]);
    }
  }

  /** Left-stripping cuts off whitespace and nothing else. */
  lemma {:induction false} LStripSpec(s: string)
    ensures AllSpace(s[..|s| - |LStrip(s)|])
    decreases |s|
  {
    if s != [] && IsSpace(s[0]) {
      var tail := s[1..];
      LStripSpec(tail);
      var cut := tail[..|tail| - |LStrip(tail)|];
      AllSpaceCons(s[0], cut);
      assert s[..|s| - |LStrip(s)|] == [s[0]] + cut;
    } else {
      assert s[..|s| - |LStrip(s)|] == [];
    }
  }

  /** Right-stripping cuts off whitespace and nothing else. */
  lemma {:induction false} RStripSpec(s: string)
    ensures AllSpace(s[|RStrip(s)|..])
    decreases |s|
  {
    if s != [] && IsSpace(s[|s| - 1]) {
      var init := s[..|s| - 1];
      RStripSpec(init);
      var cut := init[|RStrip(init)|..];
      AllSpaceSnoc(cut, s[|s| - 1]);
      assert s[|RStrip(s)|..] == cut + [s[|s| - 1]];
    } else {
      assert s[|RStrip(s)|..] == [];
    }
  }

  /** `r` is the slice of `s` starting at `lead`, and everything before
      it and everything after it is whitespace. */
  predicate StrippedAt(s: string, lead: nat, r: string) {
    && lead + |r| <= |s|
    && r == s[lead..lead + |r|]
    && AllSpace(s[..lead]) && AllSpace(s[lead + |r|..])
  }

  /** `s.strip()` is the middle of `s`: everything before it and
      everything after it is whitespace, and nothing else is cut. */
  lemma StripSpec(s: string)
    ensures StrippedAt(s, |s| - |LStrip(s)|, Strip(s))
  {
    var l := LStrip(s);
    LStripSpec(s);
    RStripSpec(l);
    assert Strip(s) == RStrip(l);
    MiddleOf(s, l, Strip(s));
  }

  /** Cutting whitespace off the front and then off the back leaves a
      middle slice with whitespace on both sides. */
  lemma MiddleOf(s: string, l: string, r: string)
    requires |l| <= |s| && l == s[|s| - |l|..] && AllSpace(s[..|s| - |l|])
    requires r <= l && AllSpace(l[|r|..])
    ensures StrippedAt(s, |s| - |l|, r)
  {
    PrefixOfSuffix(s, l, r);
    AllSpaceSame(l[|r|..], s[|s| - |l| + |r|..]);
  }

  /** A string already stripped is left as it is. */
  lemma StripStripped(s: string)
    requires Stripped(s)
    ensures Strip(s) == s
  {
  }

  // ---------------------------------------------------------------------
  // Place images (lines 279-304)

  const ImagePlaceholder := "https://via.placeholder.com/800x400?text=Tidak+Ada+Gambar"
  const CardPlaceholder := "https://via.placeholder.com/400x300?text=No+Image+Available"

  /** A URL as the image list keeps it: non-empty and stripped. */
  predicate CleanUrl(url: string) {
    url != [] && Stripped(url)
  }

  /** `[url.strip() for url in pieces if url.strip()]` */
  function CleanUrls(pieces: seq<string>): (urls: seq<string>)
    ensures |urls| <= |pieces|
    ensures forall k :: 0 <= k < |urls| ==> CleanUrl(urls[k])
    decreases |pieces|
  {
    if pieces == [] then []
    else
      var url := Strip(pieces[0]);
      var rest := CleanUrls(pieces[1..]);
      if url != [] then CleanCons(url, rest); [url] + rest else rest
  }

  lemma CleanCons(url: string, rest: seq<string>)
    requires CleanUrl(url)
    requires forall k :: 0 <= k < |rest| ==> CleanUrl(rest[k])
    ensures forall k :: 0 <= k < |[url] + rest| ==> CleanUrl(([url] + rest)[k])
  {
  }

  /** Nothing survives exactly when every piece is blank. */
  lemma {:induction false} CleanUrlsEmpty(pieces: seq<string>)
    ensures CleanUrls(pieces) == [] <==> AllBlank(pieces)
    decreases |pieces|
  {
    if pieces != [] {
      CleanUrlsEmpty(pieces[1..]);
      StripBlank(pieces[0]);
      AllBlankHead(pieces);
    }
  }

  /** Pieces already clean pass through unchanged. */
  lemma {:induction false} CleanUrlsClean(pieces: seq<string>)
    requires forall k :: 0 <= k < |pieces| ==> CleanUrl(pieces[k])
    ensures CleanUrls(pieces) == pieces
    decreases |pieces|
  {
    if pieces != [] {
      var tail := pieces[1..];
      assert forall k :: 0 <= k < |tail| ==> CleanUrl(tail[k]) by {
        forall k | 0 <= k < |tail| ensures CleanUrl(tail[k]) {
          assert tail[k] == pieces[k + 1];
        }
      }
      CleanUrlsClean(tail);
      KeepClean(pieces[0], tail);
      HeadTail(pieces);
    }
  }

  /** One unfolding of the comprehension, for a piece put in front. */
  lemma CleanUrlsCons(piece: string, rest: seq<string>)
    ensures CleanUrls([piece] + rest) ==
      if Strip(piece) != [] then [Strip(piece)] + CleanUrls(rest) else CleanUrls(rest)
  {
    assert ([piece] + rest)[1..] == rest;
  }

  /** The URLs of two runs of pieces are those of the first run followed
      by those of the second: the comprehension keeps piece order. */
  lemma {:induction false} CleanUrlsConcat(a: seq<string>, b: seq<string>)
    ensures CleanUrls(a + b) == CleanUrls(a) + CleanUrls(b)
    decreases |a|
  {
    if a == [] {
      assert a + b == b;
    } else {
      CleanUrlsConcat(a[1..], b);
      CleanUrlsConcatStep(a, b);
    }
  }

  lemma CleanUrlsConcatStep(a: seq<string>, b: seq<string>)
    requires a != []
    requires CleanUrls(a[1..] + b) == CleanUrls(a[1..]) + CleanUrls(b)
    ensures CleanUrls(a + b) == CleanUrls(a) + CleanUrls(b)
  {
    var ab := a + b;
    ConcatHeadTail(a, b);
    var url := Strip(a[0]);
    if url != [] {
      assert CleanUrls(a) == [url] + CleanUrls(a[1..]);
      assert CleanUrls(ab) == [url] + CleanUrls(ab[1..]);
      ConsConcat(url, CleanUrls(a[1..]), CleanUrls(b));
    } else {
      assert CleanUrls(a) == CleanUrls(a[1..]);
      assert CleanUrls(ab) == CleanUrls(ab[1..]);
    }
  }

  /** A single piece contributes nothing when blank, and its stripped form
      otherwise. */
  lemma CleanUrlsOne(piece: string)
    ensures CleanUrls([piece]) == if AllSpace(piece) then [] else [Strip(piece)]
  {
    StripBlank(piece);
    assert [piece][1..] == [];
  }

  /** Piece k of the list contributes, at its own place between the URLs
      of the pieces before and after it, nothing when it is blank and its
      stripped form otherwise. */
  lemma CleanUrlsAt(pieces: seq<string>, k: nat)
    requires k < |pieces|
    ensures CleanUrls(pieces) ==
      CleanUrls(pieces[..k])
      + (if AllSpace(pieces[k]) then [] else [Strip(pieces[k])])
      + CleanUrls(pieces[k + 1..])
  {
    SplitAround(pieces, k);
    CleanUrlsConcat(pieces[..k] + [pieces[k]], pieces[k + 1..]);
    CleanUrlsConcat(pieces[..k], [pieces[k]]);
    CleanUrlsOne(pieces[k]);
  }

  lemma KeepClean(url: string, tail: seq<string>)
    requires CleanUrl(url)
    ensures CleanUrls([url] + tail) == [url] + CleanUrls(tail)
  {
    StripStripped(url);
    assert ([url] + tail)[1..] == tail;
  }

  /** The URLs a non-empty `image_urls` value holds: its '|'-separated
      pieces, stripped, blanks dropped. */
  function ImagesOf(value: string): (urls: seq<string>)
    ensures forall k :: 0 <= k < |urls| ==> CleanUrl(urls[k])
  {
    CleanUrls(Split(value, '|'))
  }

  /** `get_place_images`: `image_urls` is None when the key is missing.
      A missing or empty value gives the placeholder. */
  function GetPlaceImages(imageUrls: Option<string>): (urls: seq<string>)
    ensures Truthy(imageUrls) ==> urls == ImagesOf(imageUrls.value)
  {
    if Truthy(imageUrls) then ImagesOf(imageUrls.value) else [ImagePlaceholder]
  }

  /** A missing or empty value gives exactly the single placeholder. */
  lemma MissingImages(imageUrls: Option<string>)
    requires !Truthy(imageUrls)
    ensures GetPlaceImages(imageUrls) == [ImagePlaceholder]
  {
  }

  /** URLs that survive a join and a split unchanged: clean and free of
      the separator. */
  predicate Joinable(urls: seq<string>) {
    forall k :: 0 <= k < |urls| ==> CleanUrl(urls[k]) && '|' !in urls[k]
  }

  /** Clean URLs joined with '|' split back into themselves. */
  lemma ImagesOfJoin(urls: seq<string>)
    requires |urls| >= 1
    requires Joinable(urls)
    ensures ImagesOf(Join(urls, '|')) == urls
  {
    SplitJoin(urls, '|');
    CleanUrlsClean(urls);
  }

  /** Joining clean URLs with '|' and reading them back gives the same
      list. */
  lemma ImagesRoundTrip(urls: seq<string>)
    requires |urls| >= 1
    requires Joinable(urls)
    ensures GetPlaceImages(Some(Join(urls, '|'))) == urls
  {
    JoinNonEmpty(urls);
    ImagesOfJoin(urls);
  }

  lemma JoinNonEmpty(urls: seq<string>)
    requires |urls| >= 1 && urls[0] != []
    ensures Join(urls, '|') != []
  {
    JoinStartsWith(urls, '|');
  }

  lemma {:induction false} JoinStartsWith(pieces: seq<string>, sep: char)
    requires |pieces| >= 1
    ensures |Join(pieces, sep)| >= |pieces[0]| && Join(pieces, sep)[..|pieces[0]|] == pieces[0]
  {
    if |pieces| > 1 {
      var p := pieces[0];
      assert (p + [sep] + Join(pieces[1..], sep))[..|p|] == p;
    }
  }

  /** A non-empty value made only of separators and whitespace gives no
      URL at all (not the placeholder); any other non-empty value gives at
      least one. */
  lemma ImagesEmptyIff(value: string)
    ensures ImagesOf(value) == [] <==> SepOrSpace(value, '|')
  {
    SplitBlank(value, '|');
    CleanUrlsEmpty(Split(value, '|'));
  }

  /** `image_urls[0] if image_urls else` the card placeholder (line 304). */
  function PrimaryImage(urls: seq<string>): (url: string)
    ensures urls != [] ==> url == urls[0]
    ensures urls == [] ==> url == CardPlaceholder
  {
    if urls != [] then urls[0] else CardPlaceholder
  }

  /** The card always shows some image: the first URL, the list
      placeholder, or for a blank-only value the card placeholder. */
  lemma CardImage(imageUrls: Option<string>)
    ensures PrimaryImage(GetPlaceImages(imageUrls)) != []
    ensures !Truthy(imageUrls) ==> PrimaryImage(GetPlaceImages(imageUrls)) == ImagePlaceholder
    ensures Truthy(imageUrls) && SepOrSpace(imageUrls.value, '|') ==> PrimaryImage(GetPlaceImages(imageUrls)) == CardPlaceholder
  {
    if Truthy(imageUrls) {
      ImagesEmptyIff(imageUrls.value);
    } else {
      MissingImages(imageUrls);
    }
  }

  // ---------------------------------------------------------------------
  // Category lookups (lines 333-367)

  const Bahari := "Bahari"
  const Budaya := "Budaya"
  const CagarAlam := "Cagar Alam"
  const PusatPerbelanjaan := "Pusat Perbelanjaan"
  const TamanHiburan := "Taman Hiburan"
  const TempatIbadah := "Tempat Ibadah"

  /** The six categories the three tables know. */
  const KnownCategories: set<string> := {Bahari, Budaya, CagarAlam, PusatPerbelanjaan, TamanHiburan, TempatIbadah}

  const CategoryIcons: map<string, string> := map[
    Bahari := "\U{1F30A}",
    Budaya := "\U{1F3DB}\U{FE0F}",
    CagarAlam := "\U{1F333}",
    PusatPerbelanjaan := "\U{1F6CD}\U{FE0F}",
    TamanHiburan := "\U{1F3A1}",
    TempatIbadah := "\U{1F54C}"]
  const DefaultIcon := "\U{1F3DE}\U{FE0F}"

  const CategoryColors: map<string, string> := map[
    Bahari := "#2196F3",
    Budaya := "#FFC107",
    CagarAlam := "#4CAF50",
    PusatPerbelanjaan := "#E91E63",
    TamanHiburan := "#9C27B0",
    TempatIbadah := "#FF5722"]
  const DefaultColor := "#607D8B"

  const CategoryDescriptions: map<string, string> := map[
    Bahari := "Wisata bahari mencakup pantai, laut, dan aktivitas air.",
    Budaya := "Wisata budaya mencakup museum, situs sejarah, dan atraksi budaya lokal.",
    CagarAlam := "Wisata alam mencakup taman nasional, gunung, dan kawasan konservasi.",
    PusatPerbelanjaan := "Pusat perbelanjaan seperti mall, pasar tradisional, dan kawasan belanja serta kuliner.",
    TamanHiburan := "Taman hiburan seperti taman bermain, wahana rekreasi, dan tempat hiburan.",
    TempatIbadah := "Tempat ibadah seperti masjid, gereja, pura, dan vihara bersejarah."]
  const DefaultDescription := "Destinasi wisata populer di Indonesia."

  /** `dict.get(key, default)` */
  function Lookup(table: map<string, string>, key: string, default: string): (v: string)
    ensures key in table ==> v == table[key]
    ensures key !in table ==> v == default
  {
    if key in table then table[key] else default
  }

  /** `get_category_icon` */
  function CategoryIcon(category: string): (icon: string)
    ensures category in KnownCategories ==> icon == CategoryIcons[category]
    ensures category !in KnownCategories ==> icon == DefaultIcon
  {
    Lookup(CategoryIcons, category, DefaultIcon)
  }

  /** `get_category_color` */
  function CategoryColor(category: string): (color: string)
    ensures category in KnownCategories ==> color == CategoryColors[category]
    ensures category !in KnownCategories ==> color == DefaultColor
  {
    Lookup(CategoryColors, category, DefaultColor)
  }

  /** `get_category_description` */
  function CategoryDescription(category: string): (text: string)
    ensures category in KnownCategories ==> text == CategoryDescriptions[category]
    ensures category !in KnownCategories ==> text == DefaultDescription
  {
    Lookup(CategoryDescriptions, category, DefaultDescription)
  }

  /** Each lookup falls back to its default exactly for the categories
      outside the six: no table entry equals its default. */
  lemma DefaultsOnlyForUnknown(category: string)
    ensures CategoryIcon(category) == DefaultIcon <==> category !in KnownCategories
    ensures CategoryColor(category) == DefaultColor <==> category !in KnownCategories
    ensures CategoryDescription(category) == DefaultDescription <==> category !in KnownCategories
  {
    if category in KnownCategories {
      assert category in {Bahari, Budaya, CagarAlam, PusatPerbelanjaan, TamanHiburan, TempatIbadah};
      assert CategoryIcons[category] != DefaultIcon;
      assert CategoryColors[category] != DefaultColor;
      assert CategoryDescriptions[category] != DefaultDescription;
    }
  }

  /** Two categories never share a color. */
  lemma ColorsTellCategoriesApart(a: string, b: string)
    requires a != b
    ensures CategoryColor(a) != CategoryColor(b) || (a !in KnownCategories && b !in KnownCategories)
  {
    DefaultsOnlyForUnknown(a);
    DefaultsOnlyForUnknown(b);
  }

  /** Two categories never share an icon. */
  lemma IconsTellCategoriesApart(a: string, b: string)
    requires a != b
    ensures CategoryIcon(a) != CategoryIcon(b) || (a !in KnownCategories && b !in KnownCategories)
  {
    DefaultsOnlyForUnknown(a);
    DefaultsOnlyForUnknown(b);
  }

  /** Two categories never share a description. */
  lemma DescriptionsTellCategoriesApart(a: string, b: string)
    requires a != b
    ensures CategoryDescription(a) != CategoryDescription(b) || (a !in KnownCategories && b !in KnownCategories)
  {
    DefaultsOnlyForUnknown(a);
    DefaultsOnlyForUnknown(b);
  }

  // ---------------------------------------------------------------------
  // Card title and score (lines 505-520)

  /** The title: "category + alternate" when `alternate_category` is set
      and non-empty, else the category. */
  function CardTitle(category: string, alternate: Option<string>): (title: string)
    ensures |title| >= |category| && title[..|category|] == category
  {
    if alternate.Some? && alternate.value != [] then category + " + " + alternate.value else category
  }

  /** The title is more than the category exactly when an alternate is
      shown, and then it ends with the alternate's name. */
  lemma CardTitleSpec(category: string, alternate: Option<string>)
    ensures CardTitle(category, alternate) == category <==> !(alternate.Some? && alternate.value != [])
    ensures alternate.Some? && alternate.value != [] ==>
      CardTitle(category, alternate) == category + " + " + alternate.value
    ensures alternate.Some? && alternate.value != [] ==>
      var title := CardTitle(category, alternate);
      |title| == |category| + 3 + |alternate.value| && title[|category| + 3..] == alternate.value
  {
  }

  /** The `score` entry of a recommendation: a dictionary or, in older
      result formats, a bare number. */
  datatype ScoreField = ScoreDict(entries: map<string, int>) | ScoreNumber(value: int)

  /** What the card shows: similarity, boost and final score. */
  datatype ShownScore = ShownScore(similarity: int, boost: int, finalScore: int)

  function EntryOrZero(entries: map<string, int>, key: string): int {
    if key in entries then entries[key] else 0
  }

  /** Lines 508 and 517-523: a missing `score` reads as
      `{'similarity': 0, 'boost': 0}`, missing keys read as 0, and a bare
      number is shown as the final score with 0 for the other two. */
  function DisplayedScore(score: Option<ScoreField>): (shown: ShownScore)
    ensures score == None ==> shown == ShownScore(0, 0, 0)
    ensures score.Some? && score.value.ScoreDict? ==>
      var entries := score.value.entries;
      && shown.similarity == (if "similarity" in entries then entries["similarity"] else 0)
      && shown.boost == (if "boost" in entries then entries["boost"] else 0)
      && shown.finalScore == shown.similarity + shown.boost
    ensures score.Some? && score.value.ScoreNumber? ==> shown == ShownScore(0, 0, score.value.value)
  {
    var s := if score.Some? then score.value else ScoreDict(map["similarity" := 0, "boost" := 0]);
    match s
    case ScoreDict(entries) =>
      var similarity := EntryOrZero(entries, "similarity");
      var boost := EntryOrZero(entries, "boost");
      ShownScore(similarity, boost, similarity + boost)
    case ScoreNumber(v) => ShownScore(0, 0, v)
  }

  /** The `score` dictionary a recommendation carries. */
  function ScoreEntry(score: Score): ScoreField {
    ScoreDict(map["total" := score.total, "similarity" := score.similarity, "boost" := score.boost])
  }

  /** For a recommendation built from a boosted row, the card recomputes
      exactly the stored total: Final_Score is Similarity + Boost. */
  lemma DisplayedScoreIsTotal(rows: seq<ScoredRule>, trip: string, i: nat, places: seq<PlaceRecord>)
    requires i < |ApplyContextBoost(rows, trip)|
    ensures var rec := NewRecommendation(ApplyContextBoost(rows, trip)[i], places);
      DisplayedScore(Some(ScoreEntry(rec.score))) == ShownScore(rec.similarity, rec.boost, rec.score.total)
  {
    ApplyContextBoostRows(rows, trip);
  }

  // ---------------------------------------------------------------------
  // The form (lines 453-487)

  /** Python truthiness of a selectbox value: selected and non-empty. */
  predicate Truthy(s: Option<string>) {
    s.Some? && s.value != []
  }

  /** `gender and age and city and trip_type` */
  predicate FormComplete(gender: Option<string>, age: int, city: Option<string>, tripType: Option<string>) {
    Truthy(gender) && age != 0 && Truthy(city) && Truthy(tripType)
  }

  /** `st.session_state.user_profile` */
  datatype Profile = Profile(gender: string, age: int, ageGroup: string, city: string, tripType: string)

  /** What a submit leads to: the error message, the encoder refusing a
      profile it was not fitted on (an exception in the source), or
      recommendations. */
  datatype SubmitOutcome =
    | Incomplete
    | ProfileRejected(profile: Profile)
    | Recommended(profile: Profile, recs: seq<Recommendation>)

  /** The submit branch of `render_user_profile_form`, with the cached
      recommender passed in; three categories of three places each. */
  method HandleSubmit(recommender: TourismRecommender, gender: Option<string>, age: int,
                      city: Option<string>, tripType: Option<string>)
    returns (outcome: SubmitOutcome, ghost primaries: seq<seq<PlaceRecord>>,
             ghost extras: seq<seq<seq<PlaceRecord>>>)
    requires recommender.Valid()
    modifies recommender`cityCategoryPlaces
    ensures recommender.Valid()
    ensures outcome.Incomplete? <==> !FormComplete(gender, age, city, tripType)
    ensures !outcome.Recommended? ==> recommender.cityCategoryPlaces == old(recommender.cityCategoryPlaces)
    ensures !outcome.Incomplete? ==>
      outcome.profile == Profile(gender.value, age, GetAgeGroup(age), city.value, tripType.value)
    ensures outcome.ProfileRejected? <==>
      FormComplete(gender, age, city, tripType) && !KnownProfile(recommender.rules, gender.value, GetAgeGroup(age))
    ensures outcome.Recommended? ==>
      && |outcome.recs| <= 3
      && CategoriesDistinct(outcome.recs)
      && PlacesInCity(recommender.tourism, outcome.recs, city.value)
    ensures outcome.Recommended? ==>
      && FormComplete(gender, age, city, tripType)
      && KnownProfile(recommender.rules, gender.value, GetAgeGroup(age))
      && StoredAfter(old(recommender.cityCategoryPlaces), recommender.cityCategoryPlaces, city.value, outcome.recs, 3)
      && var ageGroup := GetAgeGroup(age);
         var selected := SelectedFor(recommender.rules, gender.value, ageGroup, tripType.value,
                                     old(recommender.cityCategoryPlaces), city.value, 3);
         var boosted := ApplyContextBoost(GetCategoryRecommendations(recommender.rules, gender.value, ageGroup), tripType.value);
         var elig := Eligible(boosted, CategoriesOfRows(selected), AvailableCategories(old(recommender.cityCategoryPlaces), city.value));
         AllAssembled(outcome.recs, selected, primaries, extras, elig, old(recommender.cityCategoryPlaces), city.value, 3)
  {
    if !FormComplete(gender, age, city, tripType) {
      return Incomplete, [], [];
    }
    var ageGroup := GetAgeGroup(age);
    var profile := Profile(gender.value, age, ageGroup, city.value, tripType.value);
    var known := KnownProfileCheck(recommender.rules, gender.value, ageGroup);
    if !known {
      return ProfileRejected(profile), [], [];
    }
    ghost var before := recommender.cityCategoryPlaces;
    var recs;
    recs, primaries, extras := recommender.GetRecommendations(gender.value, ageGroup, city.value, tripType.value, 3, 3);
    SelectRowsShape(ApplyContextBoost(GetCategoryRecommendations(recommender.rules, gender.value, ageGroup), tripType.value),
                    before, city.value, 3);
    return Recommended(profile, recs), primaries, extras;
  }

  /** Whether the encoder knows the profile: the unspecified gender, or a
      gender and an age group both present in the rules table. */
  method KnownProfileCheck(rules: seq<Rule>, gender: string, ageGroup: string) returns (known: bool)
    ensures known <==> KnownProfile(rules, gender, ageGroup)
  {
    if gender == Unspecified {
      return true;
    }
    var knowsGender, knowsAge := false, false;
    for i := 0 to |rules|
      invariant knowsGender <==> exists r :: r in rules[..i] && r.gender == gender
      invariant knowsAge <==> exists r :: r in rules[..i] && r.ageGroup == ageGroup
    {
      assert rules[..i + 1] == rules[..i] + [rules[i]];
      knowsGender := knowsGender || rules[i].gender == gender;
      knowsAge := knowsAge || rules[i].ageGroup == ageGroup;
    }
    assert rules[..|rules|] == rules;
    known := knowsGender && knowsAge;
  }
}
