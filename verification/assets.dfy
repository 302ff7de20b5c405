/** Extracting asset ids from event records and paging through them
    (`parse_id_list`, `extract_asset_ids`, `handle_list_asset_ids` in `src/api.rs`). */
module Assets {
  import opened ByteStrings
  import opened Outcomes
  import opened Records
  import opened Log
  import opened Database
  import opened Queries

  const CLOB_TOKEN_IDS := Ascii("clobTokenIds")
  const POSITION_IDS := Ascii("positionIds")
  const MARKETS := Ascii("markets")

  // ---------------------------------------------------------------- one record

  /** The strings of a list, other elements skipped. */
  function StringsOf(items: seq<Json>): seq<Bytes> {
    if items == [] then []
    else (if items[0].Str? then [items[0].text] else []) + StringsOf(items[1..])
  }

  predicate AllStrings(items: seq<Json>) {
    forall v :: v in items ==> v.Str?
  }

  /** Ids given as JSON text must all be strings; a native array may hold other values. */
  function ParseIdList(c: Codec, v: Option<Json>): seq<Bytes> {
    match v
    case Some(Str(text)) =>
      (match Parse(c, text)
       case Some(Arr(items)) => if AllStrings(items) then StringsOf(items) else []
       case _ => [])
    case Some(Arr(items)) => StringsOf(items)
    case _ => []
  }

  function MarketIds(c: Codec, market: Json): seq<Bytes> {
    var clob := ParseIdList(c, Get(market, CLOB_TOKEN_IDS));
    if clob != [] then clob else ParseIdList(c, Get(market, POSITION_IDS))
  }

  // ---------------------------------------------------------------- which ids a market has

  /** `ids` are the texts of the strings of a list: `at` lists the positions of all of them. */
  ghost predicate StringsAt(items: seq<Json>, ids: seq<Bytes>, at: seq<nat>) {
    && |at| == |ids|
    && (forall j, k :: 0 <= j < k < |at| ==> at[j] < at[k])
    && (forall k :: 0 <= k < |at| ==> at[k] < |items| && items[at[k]] == Str(ids[k]))
    && (forall i :: 0 <= i < |items| && items[i].Str? ==> i in at)
  }

  lemma {:induction false} StringsAppend(a: seq<Json>, b: seq<Json>)
    ensures StringsOf(a + b) == StringsOf(a) + StringsOf(b)
  {
    if a == [] {
      assert a + b == b;
    } else {
      assert (a + b)[1..] == a[1..] + b;
      StringsAppend(a[1..], b);
    }
  }

  /** Exactly the strings are taken, all of them, in their order. */
  lemma {:induction false} StringsAre(items: seq<Json>) returns (at: seq<nat>)
    ensures StringsAt(items, StringsOf(items), at)
  {
    if items == [] {
      at := [];
    } else {
      var n := |items| - 1;
      var front, last := items[..n], items[n];
      at := StringsAre(front);
      StringsAppend(front, [last]);
      assert items == front + [last];
      assert [last][1..] == [];
      if last.Str? {
        at := at + [n];
        assert at[|at| - 1] == n;
        assert forall i :: i in at[..|at| - 1] ==> i in at;
      }
    }
  }

  predicate Spells(items: seq<Json>, ids: seq<Bytes>) {
    |items| == |ids| && forall i :: 0 <= i < |ids| ==> items[i] == Str(ids[i])
  }

  /** A list of nothing but strings gives their texts, one for one. */
  lemma {:induction false} AllTaken(items: seq<Json>, ids: seq<Bytes>)
    requires Spells(items, ids)
    ensures StringsOf(items) == ids
  {
    if items != [] {
      AllTaken(items[1..], ids[1..]);
    }
  }

  /** The text parses to a list of just these strings. */
  predicate SpelledBy(c: Codec, text: Bytes, ids: seq<Bytes>) {
    var v := Parse(c, text);
    v.Some? && v.value.Arr? && Spells(v.value.items, ids)
  }

  /** The ids a field gives, read off the JSON: text must parse to a list of nothing but these
      strings, or it gives none; a native list gives its strings; anything else gives none. */
  ghost predicate Gives(c: Codec, field: Option<Json>, ids: seq<Bytes>) {
    match field
    case Some(Str(text)) => SpelledBy(c, text, ids) || (ids == [] && forall some :: !SpelledBy(c, text, some))
    case Some(Arr(items)) => exists at :: StringsAt(items, ids, at)
    case _ => ids == []
  }

  lemma SpelledAreStrings(items: seq<Json>)
    ensures (exists ids :: Spells(items, ids)) <==> AllStrings(items)
  {
    if ids :| Spells(items, ids) {
      forall v | v in items ensures v.Str? {
        var i :| 0 <= i < |items| && items[i] == v;
        assert items[i] == Str(ids[i]);
      }
    }
    if AllStrings(items) {
      assert Spells(items, Texts(items));
    }
  }

  lemma ParsedAreGiven(c: Codec, field: Option<Json>)
    ensures Gives(c, field, ParseIdList(c, field))
  {
    match field {
      case Some(Str(text)) =>
        match Parse(c, text) {
          case Some(Arr(items)) =>
            SpelledAreStrings(items);
            if AllStrings(items) {
              AllTaken(items, Texts(items));
            }
          case _ =>
        }
      case Some(Arr(items)) =>
        var at := StringsAre(items);
      case _ =>
    }
  }

  function Texts(items: seq<Json>): (r: seq<Bytes>)
    requires AllStrings(items)
    ensures |r| == |items| && forall i :: 0 <= i < |r| ==> items[i] == Str(r[i])
  {
    assert forall i :: 0 <= i < |items| ==> items[i] in items;
    seq(|items|, i requires 0 <= i < |items| => items[i].text)
  }

  /** A market's ids are those its `clobTokenIds` gives; only if that gives none, be it missing,
      malformed, empty or mixed, those its `positionIds` gives. */
  lemma MarketIdsAre(c: Codec, market: Json)
    ensures var ids := MarketIds(c, market);
      var clob, position := Get(market, CLOB_TOKEN_IDS), Get(market, POSITION_IDS);
      (Gives(c, clob, ids) && ids != []) || (Gives(c, clob, []) && Gives(c, position, ids))
  {
    hide Gives;
    hide ParseIdList;
    ParsedAreGiven(c, Get(market, CLOB_TOKEN_IDS));
    ParsedAreGiven(c, Get(market, POSITION_IDS));
  }

  /** The form the source sends: `clobTokenIds` as text of a list of strings lists exactly
      these, in order, whatever `positionIds` holds. */
  lemma TextIdsListed(c: Codec, market: Json, text: Bytes, items: seq<Json>, ids: seq<Bytes>)
    requires market.Obj? && Ascii("clobTokenIds") in market.fields && market.fields[Ascii("clobTokenIds")] == Str(text)
    requires Parse(c, text) == Some(Arr(items)) && ids != []
    requires Spells(items, ids)
    ensures MarketIds(c, market) == ids
  {
    AllTaken(items, ids);
    assert AllStrings(items);
  }

  /** A market without `clobTokenIds` lists the strings of a native `positionIds`. */
  lemma PositionIdsListed(c: Codec, market: Json, items: seq<Json>, ids: seq<Bytes>)
    requires market.Obj? && Ascii("clobTokenIds") !in market.fields
    requires Ascii("positionIds") in market.fields && market.fields[Ascii("positionIds")] == Arr(items)
    requires Spells(items, ids)
    ensures MarketIds(c, market) == ids
  {
    AllTaken(items, ids);
  }

  function Tag(index: nat, ids: seq<Bytes>): (r: seq<(nat, Bytes)>)
    ensures |r| == |ids|
    ensures forall i :: 0 <= i < |ids| ==> r[i] == (index, ids[i])
  {
    seq(|ids|, i requires 0 <= i < |ids| => (index, ids[i]))
  }

  /** Every market's ids, tagged with the market's position, in order. */
  function IdsOf(c: Codec, markets: seq<Json>): seq<(nat, Bytes)> {
    if markets == [] then []
    else IdsOf(c, markets[..|markets| - 1]) + Tag(|markets| - 1, MarketIds(c, markets[|markets| - 1]))
  }

  function AssetIds(c: Codec, markets: Json): seq<(nat, Bytes)> {
    if markets.Arr? then IdsOf(c, markets.items) else []
  }

  lemma PushNext<T>(before: seq<T>, all: seq<T>, k: nat)
    requires k < |all|
    ensures (before + all[..k]) + [all[k]] == before + all[..k + 1]
  {}

  lemma IdsOfNothing(c: Codec, markets: seq<Json>)
    ensures IdsOf(c, markets[..0]) == []
  {}

  lemma IdsOfStep(c: Codec, markets: seq<Json>, n: nat)
    requires n < |markets|
    ensures IdsOf(c, markets[..n + 1]) == IdsOf(c, markets[..n]) + Tag(n, MarketIds(c, markets[n]))
  {
    assert markets[..n + 1][..n] == markets[..n];
  }

  method ExtractAssetIds(c: Codec, markets: Json) returns (out: seq<(nat, Bytes)>)
    ensures out == AssetIds(c, markets)
  {
    hide IdsOf;
    hide ParseIdList;
    out := [];
    if !markets.Arr? {
      return;
    }
    var arr := markets.items;
    IdsOfNothing(c, arr);
    for marketIndex := 0 to |arr|
      invariant out == IdsOf(c, arr[..marketIndex])
    {
      var ids := ParseIdList(c, Get(arr[marketIndex], CLOB_TOKEN_IDS));
      if ids == [] {
        ids := ParseIdList(c, Get(arr[marketIndex], POSITION_IDS));
      }
      ghost var before, tagged := out, Tag(marketIndex, ids);
      for k := 0 to |ids|
        invariant out == before + tagged[..k]
      {
        PushNext(before, tagged, k);
        out := out + [(marketIndex, ids[k])];
      }
      assert tagged[..|ids|] == tagged;
      IdsOfStep(c, arr, marketIndex);
    }
    assert arr[..|arr|] == arr;
  }

  /** An id is listed under a market exactly when that market carries it, and markets appear
      in order. */
  lemma {:induction false} IdsOfMembers(c: Codec, markets: seq<Json>)
    ensures forall m: nat, id :: (m, id) in IdsOf(c, markets) <==> m < |markets| && id in MarketIds(c, markets[m])
    ensures forall i, j :: 0 <= i < j < |IdsOf(c, markets)| ==> IdsOf(c, markets)[i].0 <= IdsOf(c, markets)[j].0
  {
    if markets != [] {
      var n := |markets| - 1;
      var front, ids := IdsOf(c, markets[..n]), MarketIds(c, markets[n]);
      IdsOfMembers(c, markets[..n]);
      forall m: nat, id
        ensures (m, id) in IdsOf(c, markets) <==> m < |markets| && id in MarketIds(c, markets[m])
      {
        assert (m, id) in Tag(n, ids) <==> m == n && id in ids by {
          if m == n && id in ids {
            var k :| 0 <= k < |ids| && ids[k] == id;
            assert Tag(n, ids)[k] == (m, id);
          }
        }
        assert (m, id) in IdsOf(c, markets) <==> (m, id) in front || (m, id) in Tag(n, ids);
      }
      forall i | 0 <= i < |front| ensures front[i].0 < n {
        assert (front[i].0, front[i].1) in front;
      }
    }
  }

  // ---------------------------------------------------------------- many records

  datatype Asset = Asset(id: Bytes, ticker: Bytes, marketIndex: nat)

  function Label(ticker: Bytes, ids: seq<(nat, Bytes)>): (r: seq<Asset>)
    ensures |r| == |ids|
    ensures forall i :: 0 <= i < |ids| ==> r[i] == Asset(ids[i].1, ticker, ids[i].0)
  {
    seq(|ids|, i requires 0 <= i < |ids| => Asset(ids[i].1, ticker, ids[i].0))
  }

  /** The assets of one indexed record, nothing if it cannot be read. */
  function AssetsOfEntry(c: Codec, file: Bytes, e: IndexEntry): Option<seq<Asset>> {
    match ReadValue(c, file, e)
    case None => None
    case Some(v) =>
      var markets := Get(v, MARKETS);
      Some(Label(e.ticker, AssetIds(c, if markets.Some? then markets.value else Null)))
  }

  /** The flat expansion of a run of entries. */
  function Expand(c: Codec, file: Bytes, entries: seq<IndexEntry>): Option<seq<Asset>> {
    if entries == [] then Some([])
    else
      var front := Expand(c, file, entries[..|entries| - 1]);
      var last := AssetsOfEntry(c, file, entries[|entries| - 1]);
      if front.Some? && last.Some? then Some(front.value + last.value) else None
  }

  /** An asset is listed for a run of records exactly when one of them, filed under its ticker,
      has at its market index a market with its id. */
  lemma {:induction false} ListedIff(c: Codec, file: Bytes, entries: seq<IndexEntry>, a: Asset)
    requires Expand(c, file, entries).Some?
    ensures a in Expand(c, file, entries).value <==>
      exists e :: e in entries && e.ticker == a.ticker && HoldsAsset(c, file, e, a)
  {
    hide AssetsOfEntry;
    hide HoldsAsset;
    if entries != [] {
      var n := |entries| - 1;
      var front, last := entries[..n], entries[n];
      ListedIff(c, file, front, a);
      AssetOfIff(c, file, last, a);
      assert entries == front + [last];
    }
  }

  /** The record's `markets` list holds, at the asset's index, a market with its id. */
  ghost predicate HoldsAsset(c: Codec, file: Bytes, e: IndexEntry, a: Asset) {
    var v := ReadValue(c, file, e);
    && v.Some? && v.value.Obj? && Ascii("markets") in v.value.fields && v.value.fields[Ascii("markets")].Arr?
    && var markets := v.value.fields[Ascii("markets")].items;
       a.marketIndex < |markets| && a.id in MarketIds(c, markets[a.marketIndex])
  }

  lemma AssetOfIff(c: Codec, file: Bytes, e: IndexEntry, a: Asset)
    requires AssetsOfEntry(c, file, e).Some?
    ensures a in AssetsOfEntry(c, file, e).value <==> e.ticker == a.ticker && HoldsAsset(c, file, e, a)
  {
    hide ReadValue;
    hide MarketIds;
    hide IdsOf;
    var v := ReadValue(c, file, e).value;
    var markets := Get(v, MARKETS);
    var ids := AssetIds(c, if markets.Some? then markets.value else Null);
    if markets.Some? && markets.value.Arr? {
      IdsOfMembers(c, markets.value.items);
    }
    var listed := Label(e.ticker, ids);
    if a in listed {
      var i :| 0 <= i < |listed| && listed[i] == a;
      assert ids[i] in ids && ids[i] == (a.marketIndex, a.id);
    }
    if e.ticker == a.ticker && (a.marketIndex, a.id) in ids {
      var i :| 0 <= i < |ids| && ids[i] == (a.marketIndex, a.id);
      assert listed[i] == a;
    }
  }

  datatype AssetError = BadLimit | Internal
  datatype AssetPage = AssetPage(assets: seq<Asset>, nextAfter: Option<Bytes>)

  function AssetPageOf(c: Codec, s: Snapshot, after: Option<Bytes>, requested: Option<nat>)
    : Result<AssetPage, AssetError>
  {
    match ResolveLimit(requested, DEFAULT_LIST_ASSET_IDS_LIMIT, MAX_LIST_ASSET_IDS_LIMIT)
    case None => Err(BadLimit)
    case Some(limit) =>
      var (page, next) := CursorRange(s.index, after, limit);
      match Expand(c, s.file, page)
      case Some(assets) => Ok(AssetPage(assets, next))
      case None => Err(Internal)
  }

  /** A request expands the first records beyond the cursor: 500 unless it says how many, never
      more than 2000; it fails only for none asked for or a record that cannot be read. */
  lemma ListAssetIdsIs(c: Codec, s: Snapshot, after: Option<Bytes>, requested: Option<nat>)
    requires StrictlySorted(s.index)
    ensures var beyond := Filter(s.index, BeyondTest(after));
      var limit := match requested case None => 500 case Some(n) => if n < 2000 then n else 2000;
      var assets := Expand(c, s.file, beyond[..if limit < |beyond| then limit else |beyond|]);
      var r := AssetPageOf(c, s, after, requested);
      && (r == Err(BadLimit) <==> requested == Some(0))
      && (r == Err(Internal) <==> requested != Some(0) && assets.None?)
      && (r.Ok? ==> Some(r.value.assets) == assets && (r.value.nextAfter.Some? <==> limit < |beyond|)
                    && (r.value.nextAfter.Some? ==> r.value.nextAfter.value == beyond[limit - 1].ticker))
  {
    hide CursorRange;
    hide Filter;
    hide Expand;
    if requested != Some(0) {
      var limit := ResolveLimit(requested, DEFAULT_LIST_ASSET_IDS_LIMIT, MAX_LIST_ASSET_IDS_LIMIT).value;
      CursorRangeIsScan(s.index, after, limit);
    }
  }

  lemma {:induction false} ExpandFails(c: Codec, file: Bytes, entries: seq<IndexEntry>, i: nat)
    requires i < |entries| && AssetsOfEntry(c, file, entries[i]).None?
    ensures Expand(c, file, entries).None?
  {
    if i < |entries| - 1 {
      ExpandFails(c, file, entries[..|entries| - 1], i);
    }
  }

  lemma ExpandStep(c: Codec, file: Bytes, entries: seq<IndexEntry>, i: nat)
    requires i < |entries| && Expand(c, file, entries[..i]).Some? && AssetsOfEntry(c, file, entries[i]).Some?
    ensures Expand(c, file, entries[..i + 1]) ==
      Some(Expand(c, file, entries[..i]).value + AssetsOfEntry(c, file, entries[i]).value)
  {
    assert entries[..i + 1][..i] == entries[..i];
  }

  method ListEntry(c: Codec, file: Bytes, e: IndexEntry, assets: seq<Asset>) returns (r: Option<seq<Asset>>)
    ensures r == match AssetsOfEntry(c, file, e) case Some(more) => Some(assets + more) case None => None
  {
    hide AssetIds;
    hide ReadValue;
    var value := ReadValue(c, file, e);
    if value.None? {
      return None;
    }
    var markets := Get(value.value, MARKETS);
    var ids := ExtractAssetIds(c, if markets.Some? then markets.value else Null);
    var out := assets;
    ghost var labelled := Label(e.ticker, ids);
    for k := 0 to |ids|
      invariant out == assets + labelled[..k]
    {
      PushNext(assets, labelled, k);
      out := out + [Asset(ids[k].1, e.ticker, ids[k].0)];
    }
    assert labelled[..|ids|] == labelled;
    r := Some(out);
  }

  method HandleListAssetIds(c: Codec, s: Snapshot, after: Option<Bytes>, requested: Option<nat>)
    returns (r: Result<AssetPage, AssetError>)
    ensures r == AssetPageOf(c, s, after, requested)
  {
    hide AssetsOfEntry;
    hide CursorRange;
    var limit := ResolveLimit(requested, DEFAULT_LIST_ASSET_IDS_LIMIT, MAX_LIST_ASSET_IDS_LIMIT);
    if limit.None? {
      return Err(BadLimit);
    }
    var (page, next) := CursorRange(s.index, after, limit.value);
    var assets: seq<Asset> := [];
    for i := 0 to |page|
      invariant Expand(c, s.file, page[..i]) == Some(assets)
    {
      var more := ListEntry(c, s.file, page[i], assets);
      if more.None? {
        ExpandFails(c, s.file, page, i);
        return Err(Internal);
      }
      ExpandStep(c, s.file, page, i);
      assets := more.value;
    }
    assert page[..|page|] == page;
    r := Ok(AssetPage(assets, next));
  }

  // ---------------------------------------------------------------- page-size independence

  lemma {:induction false} ExpandAppend(c: Codec, file: Bytes, a: seq<IndexEntry>, b: seq<IndexEntry>)
    requires Expand(c, file, a).Some? && Expand(c, file, b).Some?
    ensures Expand(c, file, a + b) == Some(Expand(c, file, a).value + Expand(c, file, b).value)
  {
    hide AssetsOfEntry;
    if b == [] {
      assert a + b == a;
      assert Expand(c, file, a).value + [] == Expand(c, file, a).value;
    } else {
      var front := b[..|b| - 1];
      assert (a + b)[|a + b| - 1] == b[|b| - 1];
      ExpandAppend(c, file, a, front);
      assert (a + b)[..|a + b| - 1] == a + front;
      var x, y, z := Expand(c, file, a).value, Expand(c, file, front).value, AssetsOfEntry(c, file, b[|b| - 1]).value;
      assert (x + y) + z == x + (y + z);
    }
  }

  lemma {:induction false} SoundExpands(c: Codec, s: Snapshot, entries: seq<IndexEntry>)
    requires Sound(c, s) && forall e :: e in entries ==> e in s.index
    ensures Expand(c, s.file, entries).Some?
  {
    if entries != [] {
      var e := entries[|entries| - 1];
      SoundExpands(c, s, entries[..|entries| - 1]);
      LastForUnique(s.index, e);
      FindIsLinearScan(s, e.ticker);
      SoundReads(c, s, e.ticker);
    }
  }

  /** The assets a client collects by following cursors with one limit a request, and
      whether it reached the null cursor. */
  function Collect(c: Codec, s: Snapshot, after: Option<Bytes>, limits: seq<Option<nat>>): (seq<Asset>, bool)
    decreases |limits|
  {
    if limits == [] then ([], false)
    else
      match AssetPageOf(c, s, after, limits[0])
      case Err(_) => ([], false)
      case Ok(page) =>
        if page.nextAfter.None? then (page.assets, true)
        else
          var (rest, done) := Collect(c, s, page.nextAfter, limits[1..]);
          (page.assets + rest, done)
  }

  lemma {:induction false} CollectFrom(c: Codec, s: Snapshot, after: Option<Bytes>, limits: seq<Option<nat>>)
    requires Sound(c, s) && Collect(c, s, after, limits).1
    ensures Expand(c, s.file, s.index[Start(s.index, after)..]) == Some(Collect(c, s, after, limits).0)
    decreases |limits|
  {
    hide Expand;
    hide AddressesRecord;
    hide Start;
    hide CursorRange;
    var start := Start(s.index, after);
    var rest := s.index[start..];
    var limit := ResolveLimit(limits[0], DEFAULT_LIST_ASSET_IDS_LIMIT, MAX_LIST_ASSET_IDS_LIMIT).value;
    var (page, next) := CursorRange(s.index, after, limit);
    CursorShape(s.index, after, limit);
    if next.Some? {
      StartBehind(s.index, start + limit - 1);
      var later := s.index[start + limit..];
      assert rest == page + later;
      SoundExpands(c, s, page);
      SoundExpands(c, s, later);
      ExpandAppend(c, s.file, page, later);
      CollectFrom(c, s, next, limits[1..]);
    } else {
      assert page == rest;
    }
  }

  /** Whatever the page sizes, following the cursors to the end yields the one flat
      expansion of all tickers in order. */
  lemma PageSizeIndependence(c: Codec, s: Snapshot, limits: seq<Option<nat>>)
    requires Sound(c, s) && Collect(c, s, None, limits).1
    ensures Expand(c, s.file, s.index) == Some(Collect(c, s, None, limits).0)
  {
    CollectFrom(c, s, None, limits);
    assert s.index[0..] == s.index;
  }

  /** The null cursor is always reached, after at most one page a ticker and one more. */
  lemma {:induction false} CollectFinishes(c: Codec, s: Snapshot, after: Option<Bytes>, limits: seq<Option<nat>>)
    requires Sound(c, s) && Some(0) !in limits
    requires |s.index| - Start(s.index, after) < |limits|
    ensures Collect(c, s, after, limits).1
    decreases |limits|
  {
    hide Expand;
    hide AddressesRecord;
    hide Start;
    hide CursorRange;
    var limit := ResolveLimit(limits[0], DEFAULT_LIST_ASSET_IDS_LIMIT, MAX_LIST_ASSET_IDS_LIMIT).value;
    var next := CursorRange(s.index, after, limit).1;
    SoundNeverInternalError(c, s, after, limits[0]);
    CursorShape(s.index, after, limit);
    if next.Some? {
      StartBehind(s.index, Start(s.index, after) + limit - 1);
      CollectFinishes(c, s, next, limits[1..]);
    }
  }

  /** On a sound snapshot the only way to be refused is an explicit limit of zero. */
  lemma SoundNeverInternalError(c: Codec, s: Snapshot, after: Option<Bytes>, requested: Option<nat>)
    requires Sound(c, s)
    ensures AssetPageOf(c, s, after, requested).Err? <==> requested == Some(0)
  {
    hide Start;
    if requested != Some(0) {
      var limit := ResolveLimit(requested, DEFAULT_LIST_ASSET_IDS_LIMIT, MAX_LIST_ASSET_IDS_LIMIT).value;
      var page := CursorRange(s.index, after, limit).0;
      CursorShape(s.index, after, limit);
      forall e | e in page ensures e in s.index {
        var k :| 0 <= k < |page| && page[k] == e;
        assert s.index[Start(s.index, after) + k] == e;
      }
      SoundExpands(c, s, page);
    }
  }
}
