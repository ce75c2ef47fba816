/**
 * WMapLibre::render: the script sent to the browser on a full render.
 *
 * The script text is abstracted into chunks: the blocks (map creation,
 * which also holds the widget's element reference, the FeatureCollection
 * header and footer, source, layers and event handlers, the closing of the
 * load handler) are one chunk each; a feature is one chunk holding the values spliced into it, followed by an
 * optional comma and a newline, as the loop writes them.
 */
module MapRender {
  import opened Wrappers
  import opened JsEscape
  import opened Countries

  datatype Chunk =
    | MapSetup             // new maplibregl.Map on the widget's jsRef(), the navigation control, map.on('load', function() {
    | CollectionOpen       // var countriesData = { 'type': 'FeatureCollection', 'features': [
    | Feature(cca2: string, name: string, area: real, geometry: string)
    | Comma
    | Newline
    | CollectionClose      // ] };
    | SourceAndLayers      // addSource, the fill and border layers, popup, mouse and click handlers
    | LoadClose            // });

  /** The feature written for a country: code and GeoJSON raw, the name escaped. */
  function FeatureOf(c: Country): Chunk {
    Feature(c.cca2, Escape(c.name), c.area, c.geojson)
  }

  /** What the loop writes for country `i`: the feature, a comma unless it is the last, a newline. */
  function Item(cs: seq<Country>, i: nat): seq<Chunk>
    requires i < |cs|
  {
    [FeatureOf(cs[i])] + (if i < |cs| - 1 then [Comma] else []) + [Newline]
  }

  /** What the loop has written after its first `k` rounds. */
  function Items(cs: seq<Country>, k: nat): seq<Chunk>
    requires k <= |cs|
  {
    if k == 0 then [] else Items(cs, k - 1) + Item(cs, k - 1)
  }

  /** The body of the 'features' array. */
  function FeatureArray(cs: seq<Country>): seq<Chunk> {
    Items(cs, |cs|)
  }

  /** The number of commas among `js`. */
  function CommaCount(js: seq<Chunk>): nat {
    if js == [] then 0 else (if js[0] == Comma then 1 else 0) + CommaCount(js[1..])
  }

  /** The features among `js`, in order. */
  function Features(js: seq<Chunk>): seq<Chunk> {
    if js == [] then [] else (if js[0].Feature? then [js[0]] else []) + Features(js[1..])
  }

  /** The feature list when the countries pointer is set and the list is not empty. */
  predicate HasCountries(countries: Option<seq<Country>>) {
    countries.Some? && |countries.value| > 0
  }

  /** The loop of render: writes each country's feature after what the stream already holds. */
  method WriteFeatures(js0: seq<Chunk>, cs: seq<Country>) returns (js: seq<Chunk>)
    ensures js == js0 + FeatureArray(cs)
  {
    js := js0;
    var idx := 0;
    while idx < |cs|
      invariant 0 <= idx <= |cs|
      invariant js == js0 + Items(cs, idx)
    {
      ghost var before := js;
      var c := cs[idx];
      var name := EscapeJsString(c.name);
      js := js + [Feature(c.cca2, name, c.area, c.geojson)];
      if idx < |cs| - 1 {
        js := js + [Comma];
      }
      js := js + [Newline];
      assert Feature(c.cca2, name, c.area, c.geojson) == FeatureOf(cs[idx]);
      assert js == before + Item(cs, idx);
      assert Items(cs, idx + 1) == Items(cs, idx) + Item(cs, idx);
      idx := idx + 1;
    }
  }

  /**
   * render: nothing unless the render is full; then the map setup, the
   * collection with its source and layers only when there are countries,
   * and the closing of the load handler.
   */
  method Render(full: bool, countries: Option<seq<Country>>) returns (js: seq<Chunk>)
    ensures !full ==> js == []
    ensures full && !HasCountries(countries) ==> js == [MapSetup, LoadClose]
    ensures full && HasCountries(countries) ==>
      js == [MapSetup, CollectionOpen] + FeatureArray(countries.value) + [CollectionClose, SourceAndLayers, LoadClose]
    ensures CollectionOpen in js <==> full && HasCountries(countries)
    ensures SourceAndLayers in js <==> full && HasCountries(countries)
  {
    js := [];
    if !full {
      return;
    }
    js := js + [MapSetup];
    if countries.Some? && |countries.value| > 0 {
      js := js + [CollectionOpen];
      js := WriteFeatures(js, countries.value);
      js := js + [CollectionClose, SourceAndLayers];
      js := js + [LoadClose];
      assert js[1] == CollectionOpen && js[|js| - 2] == SourceAndLayers;
    } else {
      js := js + [LoadClose];
    }
  }

  /** The feature array holds only features, commas and newlines. */
  lemma FeatureArrayHasNoFrame(cs: seq<Country>)
    ensures forall c :: c in FeatureArray(cs) ==> c.Feature? || c == Comma || c == Newline
  {
    ItemsLayout(cs, |cs|);
  }

  /**
   * The exact layout of the first `k` rounds: three chunks per country,
   * feature, comma, newline, except that the last country has no comma.
   */
  lemma {:induction false} ItemsLayout(cs: seq<Country>, k: nat)
    requires k <= |cs|
    ensures |Items(cs, k)| == if k == |cs| && k > 0 then 3 * k - 1 else 3 * k
    ensures forall p :: 0 <= p < |Items(cs, k)| ==>
      Items(cs, k)[p] == if p % 3 == 0 then FeatureOf(cs[p / 3])
                         else if p % 3 == 1 && p / 3 < |cs| - 1 then Comma
                         else Newline
  {
    if k > 0 {
      ItemsLayout(cs, k - 1);
      var prev, item := Items(cs, k - 1), Item(cs, k - 1);
      assert |prev| == 3 * (k - 1);
      var all := Items(cs, k);
      assert all == prev + item;
      forall p | 3 * (k - 1) <= p < |all|
        ensures all[p] == if p % 3 == 0 then FeatureOf(cs[p / 3])
                          else if p % 3 == 1 && p / 3 < |cs| - 1 then Comma
                          else Newline
      {
        assert p / 3 == k - 1;
        assert all[p] == item[p - 3 * (k - 1)];
      }
    }
  }

  /** For n >= 1 countries the array has 3n - 1 chunks and ends with the last feature and a newline, no comma. */
  lemma FeatureArrayEnds(cs: seq<Country>)
    requires |cs| >= 1
    ensures |FeatureArray(cs)| == 3 * |cs| - 1
    ensures FeatureArray(cs)[|FeatureArray(cs)| - 2] == FeatureOf(cs[|cs| - 1])
    ensures FeatureArray(cs)[|FeatureArray(cs)| - 1] == Newline
  {
    ItemsLayout(cs, |cs|);
    var n := |cs|;
    assert (3 * n - 3) % 3 == 0 && (3 * n - 3) / 3 == n - 1;
    assert (3 * n - 2) % 3 == 1 && (3 * n - 2) / 3 == n - 1;
  }

  /** Every feature but the last is followed by a comma; the last is followed by the closing newline. */
  lemma FeatureArrayCommaAfter(cs: seq<Country>)
    ensures forall p :: 0 <= p < |FeatureArray(cs)| && FeatureArray(cs)[p].Feature? ==>
      p + 1 < |FeatureArray(cs)| && (FeatureArray(cs)[p + 1] == Comma <==> p + 2 < |FeatureArray(cs)|)
  {
    ItemsLayout(cs, |cs|);
    var fa := FeatureArray(cs);
    forall p | 0 <= p < |fa| && fa[p].Feature?
      ensures p + 1 < |fa| && (fa[p + 1] == Comma <==> p + 2 < |fa|)
    {
      assert p % 3 == 0;
      assert (p + 1) % 3 == 1 && (p + 1) / 3 == p / 3;
    }
  }

  /** Every comma stands between a feature and a newline. */
  lemma FeatureArrayCommaBetween(cs: seq<Country>)
    ensures forall p :: 0 <= p < |FeatureArray(cs)| && FeatureArray(cs)[p] == Comma ==>
      0 < p && FeatureArray(cs)[p - 1].Feature? && p + 1 < |FeatureArray(cs)| && FeatureArray(cs)[p + 1] == Newline
  {
    ItemsLayout(cs, |cs|);
    var fa := FeatureArray(cs);
    forall p | 0 <= p < |fa| && fa[p] == Comma
      ensures 0 < p && fa[p - 1].Feature? && p + 1 < |fa| && fa[p + 1] == Newline
    {
      assert p % 3 == 1 && p / 3 < |cs| - 1;
      assert (p - 1) % 3 == 0;
      assert (p + 1) % 3 == 2;
    }
  }

  lemma {:induction false} FeaturesConcat(a: seq<Chunk>, b: seq<Chunk>)
    ensures Features(a + b) == Features(a) + Features(b)
  {
    if a == [] {
      assert a + b == b;
    } else {
      assert (a + b)[0] == a[0] && (a + b)[1..] == a[1..] + b;
      FeaturesConcat(a[1..], b);
      var head := if a[0].Feature? then [a[0]] else [];
      assert Features(a + b) == head + Features(a[1..] + b);
      assert Features(a) == head + Features(a[1..]);
    }
  }

  /** One round writes one feature. */
  lemma ItemFeatures(cs: seq<Country>, i: nat)
    requires i < |cs|
    ensures Features(Item(cs, i)) == [FeatureOf(cs[i])]
  {
    var f := FeatureOf(cs[i]);
    assert [Newline][1..] == [] && Features([Newline]) == [];
    assert [Comma, Newline][1..] == [Newline] && Features([Comma, Newline]) == [];
    if i < |cs| - 1 {
      var t := [f, Comma, Newline];
      assert Item(cs, i) == t;
      assert t[1..] == [Comma, Newline];
    } else {
      var t := [f, Newline];
      assert Item(cs, i) == t;
      assert t[1..] == [Newline];
    }
  }

  lemma {:induction false} CommaCountConcat(a: seq<Chunk>, b: seq<Chunk>)
    ensures CommaCount(a + b) == CommaCount(a) + CommaCount(b)
  {
    if a == [] {
      assert a + b == b;
    } else {
      assert (a + b)[1..] == a[1..] + b;
      CommaCountConcat(a[1..], b);
    }
  }

  /** One round writes one comma, none for the last country. */
  lemma ItemCommaCount(cs: seq<Country>, i: nat)
    requires i < |cs|
    ensures CommaCount(Item(cs, i)) == if i < |cs| - 1 then 1 else 0
  {
    var f := FeatureOf(cs[i]);
    assert [Newline][1..] == [] && CommaCount([Newline]) == 0;
    assert [Comma, Newline][1..] == [Newline] && CommaCount([Comma, Newline]) == 1;
    if i < |cs| - 1 {
      var t := [f, Comma, Newline];
      assert Item(cs, i) == t;
      assert t[1..] == [Comma, Newline];
    } else {
      var t := [f, Newline];
      assert Item(cs, i) == t;
      assert t[1..] == [Newline];
    }
  }

  /** The first `k` rounds write one comma per round, and one less if the last country is among them. */
  lemma {:induction false} ItemsCommaCount(cs: seq<Country>, k: nat)
    requires k <= |cs|
    ensures CommaCount(Items(cs, k)) == if k == |cs| && k > 0 then k - 1 else k
  {
    if k > 0 {
      ItemsCommaCount(cs, k - 1);
      CommaCountConcat(Items(cs, k - 1), Item(cs, k - 1));
      ItemCommaCount(cs, k - 1);
    }
  }

  /** The first `k` rounds write the features of the first `k` countries, in order. */
  lemma {:induction false} ItemsFeatures(cs: seq<Country>, k: nat)
    requires k <= |cs|
    ensures |Features(Items(cs, k))| == k
    ensures forall i :: 0 <= i < k ==> Features(Items(cs, k))[i] == FeatureOf(cs[i])
  {
    if k > 0 {
      ItemsFeatures(cs, k - 1);
      FeaturesConcat(Items(cs, k - 1), Item(cs, k - 1));
      ItemFeatures(cs, k - 1);
    }
  }

  /** n countries give exactly n - 1 separators, and none for an empty list. */
  lemma FeatureArrayCommaCount(cs: seq<Country>)
    ensures CommaCount(FeatureArray(cs)) == if |cs| == 0 then 0 else |cs| - 1
  {
    ItemsCommaCount(cs, |cs|);
  }

  /** Each country gives one feature, in list order, whose name reads back as the country's name. */
  lemma FeatureArrayFeatures(cs: seq<Country>)
    ensures |Features(FeatureArray(cs))| == |cs|
    ensures forall i :: 0 <= i < |cs| ==>
      Features(FeatureArray(cs))[i] == FeatureOf(cs[i]) &&
      Unescape(Features(FeatureArray(cs))[i].name) == Some(cs[i].name)
  {
    ItemsFeatures(cs, |cs|);
    forall i | 0 <= i < |cs|
      ensures Unescape(FeatureOf(cs[i]).name) == Some(cs[i].name)
    {
      UnescapeEscape(cs[i].name);
    }
  }
}
