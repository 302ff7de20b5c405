/** Outcomes. */
module Outcomes {
  datatype Option<+T> = None | Some(value: T)
  datatype Result<+T, +E> = Ok(value: T) | Err(error: E)
}

/** JSON records as the database looks at them.  The JSON text grammar, Unicode trimming
    and RFC 3339 dates (section 5.6) belong to libraries: a `Codec` holds those functions,
    and what a theorem needs of them it states as a hypothesis on the values printed. */
module Records {
  import opened ByteStrings
  import opened Outcomes

  datatype Json =
    | Null
    | Bool(bit: bool)
    | Num(n: int)
    | Float(digits: Bytes)
    | Str(text: Bytes)
    | Arr(items: seq<Json>)
    | Obj(fields: map<Bytes, Json>)

  datatype Codec = Codec(
    parse: Bytes -> Option<Json>,
    show: Json -> Bytes,
    trim: Bytes -> Bytes,
    time: Bytes -> Option<int>)

  const U32_MODULUS := 0x1_0000_0000
  const U64_MODULUS := 0x1_0000_0000_0000_0000
  const DB_FORMAT_VERSION := 1

  const TICKER := Ascii("ticker")
  const END_DATE := Ascii("endDate")
  const META_MARK := Ascii("__apdb_meta__")
  const BUILT_AT := Ascii("built_at_unix")
  const FORMAT_VERSION := Ascii("format_version")
  const NULL_TICKER := Ascii("null")

  type U32 = n: nat | n < U32_MODULUS

  /** Rust's `as u32`. */
  function AsU32(n: nat): (r: nat)
    ensures r < U32_MODULUS
    ensures n < U32_MODULUS <==> r == n
  {
    n % U32_MODULUS
  }

  // The library calls.  Everything outside this module goes through these.

  function Parse(c: Codec, text: Bytes): Option<Json> { c.parse(text) }

  function Show(c: Codec, v: Json): Bytes { c.show(v) }

  function Trim(c: Codec, text: Bytes): Bytes { c.trim(text) }

  function ParseTime(c: Codec, text: Bytes): Option<int> { c.time(text) }

  // ---------------------------------------------------------------- field access

  function Get(v: Json, name: Bytes): Option<Json> {
    if v.Obj? && name in v.fields then Some(v.fields[name]) else None
  }

  function AsU64(v: Option<Json>): Option<nat> {
    if v.Some? && v.value.Num? && 0 <= v.value.n < U64_MODULUS then Some(v.value.n) else None
  }

  /** The ticker field as written, the empty string when absent or not a string. */
  function RawTicker(v: Json): Bytes {
    var t := Get(v, TICKER);
    if t.Some? && t.value.Str? then t.value.text else []
  }

  function TickerOf(c: Codec, v: Json): Bytes {
    Trim(c, RawTicker(v))
  }

  predicate IsMeta(v: Json) {
    Get(v, META_MARK) == Some(Bool(true))
  }

  function MetaBuiltAt(v: Json): Option<nat> {
    AsU64(Get(v, BUILT_AT))
  }

  function MetaVersion(v: Json): nat {
    match AsU64(Get(v, FORMAT_VERSION))
    case Some(n) => AsU32(n)
    case None => 1
  }

  // ---------------------------------------------------------------- events

  /** `PolymarketEvent`: two named fields, the rest kept aside. */
  datatype Event = Event(ticker: Bytes, endDate: Option<Bytes>, extra: map<Bytes, Json>)

  function EventJson(e: Event): Json {
    Obj(e.extra[TICKER := Str(e.ticker)][END_DATE := if e.endDate.Some? then Str(e.endDate.value) else Null])
  }

  /** `serde_json::from_value::<PolymarketEvent>`. */
  function EventOf(v: Json): Option<Event> {
    if !v.Obj? || TICKER !in v.fields || !v.fields[TICKER].Str? then None
    else
      var rest := v.fields - {TICKER, END_DATE};
      match Get(v, END_DATE)
      case None => Some(Event(v.fields[TICKER].text, None, rest))
      case Some(Null) => Some(Event(v.fields[TICKER].text, None, rest))
      case Some(Str(d)) => Some(Event(v.fields[TICKER].text, Some(d), rest))
      case _ => None
  }

  function MetaJson(builtAt: nat): Json {
    Obj(map[META_MARK := Bool(true), FORMAT_VERSION := Num(DB_FORMAT_VERSION), BUILT_AT := Num(builtAt)])
  }

  lemma FieldNamesDiffer()
    ensures TICKER != END_DATE
    ensures META_MARK != BUILT_AT && META_MARK != FORMAT_VERSION && BUILT_AT != FORMAT_VERSION
  {
    assert |TICKER| == 6 && |END_DATE| == 7;
    assert |META_MARK| == 13 && |BUILT_AT| == 13 && |FORMAT_VERSION| == 14;
    assert META_MARK[0] == 95 && BUILT_AT[0] == 98;
  }

  // ---------------------------------------------------------------- printing

  /** What any part of the database ever reads back out of a stored line. */
  datatype View = View(ticker: Bytes, meta: bool, builtAt: Option<nat>, version: nat,
                       event: Option<(Bytes, Option<Bytes>)>)

  function ViewOf(v: Json): View {
    View(RawTicker(v), IsMeta(v), MetaBuiltAt(v), MetaVersion(v),
         match EventOf(v) case Some(e) => Some((e.ticker, e.endDate)) case None => None)
  }

  /** The hypothesis on the JSON library, value by value: `v` prints as one line of valid
      UTF-8, and parsing that line gives a value with the same view. */
  ghost predicate Printable(c: Codec, v: Json) {
    var text := Show(c, v);
    && Utf8(text)
    && NEWLINE !in text
    && Parse(c, text).Some?
    && ViewOf(Parse(c, text).value) == ViewOf(v)
  }

  /** Serde's derive undoes itself: an event read back from its own JSON value is the same
      event, when `extra` holds neither named field (as `flatten` guarantees). */
  lemma EventRoundTrip(e: Event)
    requires TICKER !in e.extra && END_DATE !in e.extra
    ensures EventOf(EventJson(e)) == Some(e)
  {
    FieldNamesDiffer();
    assert EventJson(e).fields - {TICKER, END_DATE} == e.extra;
  }

  lemma EventJsonView(e: Event)
    ensures RawTicker(EventJson(e)) == e.ticker
    ensures ViewOf(EventJson(e)).event == Some((e.ticker, e.endDate))
  {
    FieldNamesDiffer();
  }

  lemma MetaJsonView(builtAt: nat)
    requires builtAt < U64_MODULUS
    ensures IsMeta(MetaJson(builtAt))
    ensures MetaBuiltAt(MetaJson(builtAt)) == Some(builtAt)
    ensures MetaVersion(MetaJson(builtAt)) == DB_FORMAT_VERSION
  {
    FieldNamesDiffer();
  }

  /** Which values are events, field by field: an object with a text ticker, whose end date is
      missing, null or text; missing and null are the same. */
  lemma EventOfIff(v: Json)
    ensures EventOf(v).Some? <==>
      && v.Obj? && Ascii("ticker") in v.fields && v.fields[TICKER].Str?
      && (Ascii("endDate") in v.fields ==> v.fields[END_DATE].Null? || v.fields[END_DATE].Str?)
    ensures EventOf(v).Some? ==>
      var e := EventOf(v).value;
      && v.fields[TICKER] == Str(e.ticker)
      && (e.endDate.None? <==> END_DATE !in v.fields || v.fields[END_DATE].Null?)
      && (e.endDate.Some? ==> v.fields[END_DATE] == Str(e.endDate.value))
      && e.extra == v.fields - {TICKER, END_DATE}
  {
    FieldNamesDiffer();
  }

  /** Storing what was read gives the same object back, with a null where the end date was
      missing. */
  lemma StoredAsRead(v: Json)
    requires EventOf(v).Some?
    ensures EventJson(EventOf(v).value) == Obj(if END_DATE in v.fields then v.fields else v.fields[END_DATE := Null])
  {
    FieldNamesDiffer();
    var stored := EventJson(EventOf(v).value).fields;
    var given := if END_DATE in v.fields then v.fields else v.fields[END_DATE := Null];
    assert stored.Keys == given.Keys;
    assert forall k :: k in given ==> stored[k] == given[k];
    assert stored == given;
  }
}
