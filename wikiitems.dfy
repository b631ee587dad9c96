/** Catalogue items of wiki-shared.js: `normItem`, which turns a raw record
    into the fields every page relies on, and `matchesQuery`, the search. */
module WikiItems {
  import opened Options
  import opened Text
  import opened JsValues
  import opened WikiText

  /** A normalised item. `extra` holds every field of the raw record that
      the normalisation does not overwrite (the spread `...item`); `buy` and
      `sell` are `null` (None) or a string. */
  datatype Item = Item(
    extra: map<string, Value>,
    name: string,
    image: string,
    tags: seq<Value>,
    notes: string,
    id: string,
    buy: Option<string>,
    sell: Option<string>,
    kv: seq<Value>,
    search: seq<Value>)

  /** The keys the normalised object writes over the spread record. */
  const NormKeys: set<string> := {"name", "image", "tags", "notes", "id", "buy", "sell", "kv", "search"}

  /** `Array.isArray(v) ? v : []`. */
  function ArrayOrEmpty(v: Value): seq<Value> {
    if v.List? then v.elems else []
  }

  /** The `buy`/`sell` rule: `null` for nullish or blank values, otherwise `String(v)`, untrimmed. */
  function Price(v: Value): Option<string> {
    if IsNullish(v) || Trim(ToStr(v)) == "" then None else Some(ToStr(v))
  }

  /** `it || {}` reads every key exactly as `it` does, and spreads the same
      fields: whatever is not a plain object has none either way. */
  lemma OrEmptyReadsAlike(it: Value, key: string)
    ensures Get(Or(it, Obj(map[])), key) == Get(it, key)
    ensures Or(it, Obj(map[])).Obj? ==> Or(it, Obj(map[])).fields == Fields(it)
  {
  }

  /** The own fields `{ ...v }` copies from a record. */
  function Fields(v: Value): map<string, Value> {
    if v.Obj? then v.fields else map[]
  }

  /** `String(v || "").trim()`. */
  function TextOf(v: Value): string {
    Trim(ToStr(Or(v, Str(""))))
  }

  /** `String((item.image ?? item.img ?? "") || "").trim()`. */
  function ImageOf(item: Value): string {
    TextOf(Coalesce(Coalesce(Get(item, "image"), Get(item, "img")), Str("")))
  }

  /** `String(item.id || slugId(name)).trim()`, with `slug` standing for `slugId(name)`. */
  function IdOf(id: Value, slug: string): string {
    Trim(ToStr(Or(id, Str(slug))))
  }

  /** `normItem(it)`; it reads `it` itself where the source reads `it || {}`,
      which `OrEmptyReadsAlike` shows to be the same. */
  function NormItem(it: Value): Item {
    var name := TextOf(Get(it, "name"));
    Item(Fields(it) - NormKeys, name, ImageOf(it), ArrayOrEmpty(Get(it, "tags")),
         TextOf(Get(it, "notes")), IdOf(Get(it, "id"), SlugId(Str(name))),
         Price(Get(it, "buy")), Price(Get(it, "sell")),
         ArrayOrEmpty(Get(it, "kv")), ArrayOrEmpty(Get(it, "search")))
  }

  /** `String(v).trim()` has no white space at its ends. */
  predicate Trimmed(s: string) {
    s == [] || (!IsWhite(s[0]) && !IsWhite(s[|s| - 1]))
  }

  /** A price is absent exactly when the raw value is nullish or blank, and
      otherwise it is the raw value's text, untouched. */
  lemma NormItemPrices(it: Value)
    ensures NormItem(it).buy == None <==> IsBlank(Get(it, "buy"))
    ensures NormItem(it).buy != None ==> NormItem(it).buy.value == ToStr(Get(it, "buy"))
    ensures NormItem(it).sell == None <==> IsBlank(Get(it, "sell"))
    ensures NormItem(it).sell != None ==> NormItem(it).sell.value == ToStr(Get(it, "sell"))
  {
    TrimEmptyIff(ToStr(Get(it, "buy")));
    TrimEmptyIff(ToStr(Get(it, "sell")));
  }

  /** The text fields come out trimmed. */
  lemma NormItemTextTrimmed(it: Value)
    ensures Trimmed(NormItem(it).name) && Trimmed(NormItem(it).image)
    ensures Trimmed(NormItem(it).notes) && Trimmed(NormItem(it).id)
  {
    NormItemFields(it);
    TextOfIsTrimmed(Get(it, "name"));
    TextOfIsTrimmed(Get(it, "notes"));
    TextOfIsTrimmed(Coalesce(Coalesce(Get(it, "image"), Get(it, "img")), Str("")));
    TrimHasNoWhiteEnds(ToStr(Or(Get(it, "id"), Str(SlugId(Str(NormItem(it).name))))));
  }

  /** Each field of `normItem` as the function that computes it. */
  lemma NormItemFields(it: Value)
    ensures NormItem(it).name == TextOf(Get(it, "name"))
    ensures NormItem(it).image == ImageOf(it)
    ensures NormItem(it).notes == TextOf(Get(it, "notes"))
    ensures NormItem(it).id == IdOf(Get(it, "id"), SlugId(Str(NormItem(it).name)))
    ensures NormItem(it).buy == Price(Get(it, "buy")) && NormItem(it).sell == Price(Get(it, "sell"))
    ensures NormItem(it).extra == Fields(it) - NormKeys
  {
  }

  lemma TextOfIsTrimmed(v: Value)
    ensures Trimmed(TextOf(v))
  {
    TrimHasNoWhiteEnds(ToStr(Or(v, Str(""))));
  }

  /** A slug has no white space to trim. */
  lemma TrimOfSlug(t: string)
    requires IsSlug(t)
    ensures Trim(t) == t
  {
    assert DashSeparated(t);
    TrimUnchanged(t);
  }

  /** Without a usable `id` the item is identified by the slug of its name. */
  lemma NormItemIdFallsBackToSlug(it: Value)
    requires !Truthy(Get(it, "id"))
    ensures NormItem(it).id == SlugId(Str(NormItem(it).name))
    ensures IsSlug(NormItem(it).id)
  {
    NormItemFields(it);
    var slug := SlugId(Str(NormItem(it).name));
    assert Or(Get(it, "id"), Str(slug)) == Str(slug);
    TrimOfSlug(slug);
  }

  /** A non-array `tags`, `kv` or `search` becomes the empty list; an array is kept. */
  lemma NormItemLists(it: Value)
    ensures NormItem(it).tags == (if Get(it, "tags").List? then Get(it, "tags").elems else [])
    ensures NormItem(it).kv == (if Get(it, "kv").List? then Get(it, "kv").elems else [])
    ensures NormItem(it).search == (if Get(it, "search").List? then Get(it, "search").elems else [])
  {
  }

  /** Every other field of a record is carried over unchanged. */
  lemma NormItemKeepsOtherFields(it: Value, key: string)
    requires key !in NormKeys
    ensures key in NormItem(it).extra <==> it.Obj? && key in it.fields
    ensures key in NormItem(it).extra ==> NormItem(it).extra[key] == Get(it, key)
  {
  }

  function PriceValue(p: Option<string>): Value {
    match p
    case None => Null
    case Some(s) => Str(s)
  }

  /** The object `normItem` returns, as a value that can be normalised again. */
  function ItemValue(item: Item): Value {
    Obj(item.extra + map[
      "name" := Str(item.name), "image" := Str(item.image), "tags" := List(item.tags),
      "notes" := Str(item.notes), "id" := Str(item.id), "buy" := PriceValue(item.buy),
      "sell" := PriceValue(item.sell), "kv" := List(item.kv), "search" := List(item.search)])
  }

  /** What every result of `normItem` satisfies. */
  predicate IsNormal(n: Item) {
    && Trimmed(n.name) && Trimmed(n.image) && Trimmed(n.notes) && Trimmed(n.id)
    && (forall k :: k in n.extra ==> k !in NormKeys)
    && (n.buy != None ==> Price(Str(n.buy.value)) == n.buy)
    && (n.sell != None ==> Price(Str(n.sell.value)) == n.sell)
  }

  lemma NormItemIsNormal(it: Value)
    ensures IsNormal(NormItem(it))
  {
    NormItemTextTrimmed(it);
    NormItemFields(it);
    PriceIsStable(Get(it, "buy"));
    PriceIsStable(Get(it, "sell"));
  }

  /** A price that is present reads the same from its own text. */
  lemma PriceIsStable(raw: Value)
    ensures Price(raw) != None ==> Price(Str(Price(raw).value)) == Price(raw)
  {
  }

  /** Normalising the object of a normal item gives the item back, as long
      as its `id` is not empty while its name has a slug. */
  lemma NormalItemTwice(n: Item)
    requires IsNormal(n)
    requires n.id == "" ==> SlugId(Str(n.name)) == ""
    ensures NormItem(ItemValue(n)) == n
  {
    ItemValueReads(n);
    ExtraTwice(n);
    NormItemOfNormalFields(ItemValue(n), n);
  }

  /** A record that holds a normal item's fields under the written keys
      normalises to that item. */
  lemma NormItemOfNormalFields(v: Value, n: Item)
    requires IsNormal(n)
    requires n.id == "" ==> SlugId(Str(n.name)) == ""
    requires Get(v, "name") == Str(n.name) && Get(v, "image") == Str(n.image)
    requires Get(v, "notes") == Str(n.notes) && Get(v, "id") == Str(n.id)
    requires Get(v, "tags") == List(n.tags) && Get(v, "kv") == List(n.kv) && Get(v, "search") == List(n.search)
    requires Get(v, "buy") == PriceValue(n.buy) && Get(v, "sell") == PriceValue(n.sell)
    requires Fields(v) - NormKeys == n.extra
    ensures NormItem(v) == n
  {
    NormItemFields(v);
    NormalTextsRead(v, n);
    IdOfTrimmed(n.id, SlugId(Str(n.name)));
    PriceOfPriceValue(n.buy);
    PriceOfPriceValue(n.sell);
  }

  /** The three plain text fields of a normal item are read back as they are. */
  lemma NormalTextsRead(v: Value, n: Item)
    requires Trimmed(n.name) && Trimmed(n.image) && Trimmed(n.notes)
    requires Get(v, "name") == Str(n.name) && Get(v, "image") == Str(n.image) && Get(v, "notes") == Str(n.notes)
    ensures TextOf(Get(v, "name")) == n.name
    ensures ImageOf(v) == n.image
    ensures TextOf(Get(v, "notes")) == n.notes
  {
    TextOfTrimmed(n.name);
    TextOfTrimmed(n.notes);
    ImageOfStr(v, n.image);
  }

  /** A string `image` is taken whatever `img` holds. */
  lemma ImageOfStr(v: Value, s: string)
    requires Trimmed(s) && Get(v, "image") == Str(s)
    ensures ImageOf(v) == s
  {
    var tried := Coalesce(Get(v, "image"), Get(v, "img"));
    assert tried == Str(s);
    assert Coalesce(tried, Str("")) == Str(s);
    TextOfTrimmed(s);
  }

  lemma IdOfTrimmed(id: string, slug: string)
    requires Trimmed(id)
    requires id == "" ==> slug == ""
    ensures IdOf(Str(id), slug) == id
  {
    IdOfText(id, slug);
    TrimUnchanged(id);
  }

  lemma PriceOfPriceValue(p: Option<string>)
    requires p != None ==> Price(Str(p.value)) == p
    ensures Price(PriceValue(p)) == p
  {
  }

  lemma ExtraTwice(n: Item)
    requires forall k :: k in n.extra ==> k !in NormKeys
    ensures Fields(ItemValue(n)) - NormKeys == n.extra
  {
  }

  /** The grid normalises items that are already normalised: that changes
      nothing, unless the raw `id` was truthy but blank (`" "`, `[]`). */
  lemma NormItemTwice(it: Value)
    requires !(Truthy(Get(it, "id")) && AllWhite(ToStr(Get(it, "id"))))
    ensures NormItem(ItemValue(NormItem(it))) == NormItem(it)
  {
    NormItemIsNormal(it);
    IdEmptyOnlyForEmptySlug(it);
    NormalItemsTwice();
  }

  /** `NormalItemTwice` for every item at once. */
  lemma NormalItemsTwice()
    ensures forall n: Item :: IsNormal(n) && (n.id == "" ==> SlugId(Str(n.name)) == "")
              ==> NormItem(ItemValue(n)) == n
  {
    forall n: Item | IsNormal(n) && (n.id == "" ==> SlugId(Str(n.name)) == "")
      ensures NormItem(ItemValue(n)) == n
    {
      NormalItemTwice(n);
    }
  }

  /** Unless the raw `id` is truthy but blank, the id comes out empty only
      when the name has an empty slug. */
  lemma IdEmptyOnlyForEmptySlug(it: Value)
    requires !(Truthy(Get(it, "id")) && AllWhite(ToStr(Get(it, "id"))))
    ensures NormItem(it).id == "" ==> SlugId(Str(NormItem(it).name)) == ""
  {
    NormItemFields(it);
    var id := Get(it, "id");
    var slug := SlugId(Str(NormItem(it).name));
    if Truthy(id) {
      assert Or(id, Str(slug)) == id;
      TrimEmptyIff(ToStr(id));
    } else {
      assert Or(id, Str(slug)) == Str(slug);
      TrimOfSlug(slug);
    }
  }

  /** What the normalised object holds under each key it writes. */
  lemma ItemValueReads(n: Item)
    ensures Get(ItemValue(n), "name") == Str(n.name)
    ensures Get(ItemValue(n), "image") == Str(n.image)
    ensures Get(ItemValue(n), "tags") == List(n.tags)
    ensures Get(ItemValue(n), "notes") == Str(n.notes)
    ensures Get(ItemValue(n), "id") == Str(n.id)
    ensures Get(ItemValue(n), "buy") == PriceValue(n.buy)
    ensures Get(ItemValue(n), "sell") == PriceValue(n.sell)
    ensures Get(ItemValue(n), "kv") == List(n.kv)
    ensures Get(ItemValue(n), "search") == List(n.search)
  {
    ItemValueReadsTexts(n);
    ItemValueReadsOthers(n);
  }

  lemma ItemValueReadsTexts(n: Item)
    ensures Get(ItemValue(n), "name") == Str(n.name)
    ensures Get(ItemValue(n), "image") == Str(n.image)
    ensures Get(ItemValue(n), "notes") == Str(n.notes)
    ensures Get(ItemValue(n), "id") == Str(n.id)
  {
  }

  lemma ItemValueReadsOthers(n: Item)
    ensures Get(ItemValue(n), "tags") == List(n.tags)
    ensures Get(ItemValue(n), "buy") == PriceValue(n.buy)
    ensures Get(ItemValue(n), "sell") == PriceValue(n.sell)
    ensures Get(ItemValue(n), "kv") == List(n.kv)
    ensures Get(ItemValue(n), "search") == List(n.search)
  {
  }


  lemma TextOfTrimmed(s: string)
    requires Trimmed(s)
    ensures TextOf(Str(s)) == s
  {
    TrimUnchanged(s);
  }


  /** A non-empty `id` is kept, trimmed; an empty one gives way to the slug. */
  lemma IdOfText(r: string, slug: string)
    ensures r != "" ==> IdOf(Str(r), slug) == Trim(r)
    ensures r == "" ==> IdOf(Str(r), slug) == Trim(slug)
  {
    if r != "" {
      assert Or(Str(r), Str(slug)) == Str(r);
    } else {
      assert Or(Str(r), Str(slug)) == Str(slug);
    }
  }

  /** Why the exception is needed: a truthy but blank `id` comes out empty,
      and the second pass replaces it by the slug of the name. */
  lemma NormItemTwiceChangesBlankId(it: Value)
    requires Truthy(Get(it, "id")) && AllWhite(ToStr(Get(it, "id")))
    ensures NormItem(it).id == ""
    ensures NormItem(ItemValue(NormItem(it))).id == SlugId(Str(NormItem(it).name))
  {
    NormItemFields(it);
    var n := NormItem(it);
    TrimEmptyIff(ToStr(Get(it, "id")));
    NormItemTextTrimmed(it);
    TextOfTrimmed(n.name);
    ItemValueReads(n);
    NormItemFields(ItemValue(n));
    IdOfText("", SlugId(Str(n.name)));
    TrimOfSlug(SlugId(Str(n.name)));
  }

  // ---------- matchesQuery ----------

  /** The texts the search looks through: name, id, notes, then every tag
      and every extra search token as `join` renders them. */
  function HayParts(item: Item): seq<string> {
    [item.name, item.id, item.notes] + ElemStrs(item.tags) + ElemStrs(item.search)
  }

  /** `matchesQuery(item, q)` on a normalised item. */
  function MatchesQuery(item: Item, q: string): bool {
    var query := Lower(Trim(q));
    if query == "" then true
    else Contains(Lower(Join(" ", HayParts(item))), query)
  }

  /** A blank query matches every item. */
  lemma BlankQueryMatchesAll(item: Item, q: string)
    requires AllWhite(q)
    ensures MatchesQuery(item, q)
  {
    TrimEmptyIff(q);
  }

  /** The search ignores the case of the query. */
  lemma MatchesQueryIgnoresCase(item: Item, q1: string, q2: string)
    requires Lower(q1) == Lower(q2)
    ensures MatchesQuery(item, q1) == MatchesQuery(item, q2)
  {
    LowerTrim(q1);
    LowerTrim(q2);
  }

  /** A query found (ignoring case) in any one of the searched texts matches the item. */
  lemma MatchInPartMatchesItem(item: Item, q: string, k: nat)
    requires k < |HayParts(item)|
    requires Contains(Lower(HayParts(item)[k]), Lower(Trim(q)))
    ensures MatchesQuery(item, q)
  {
    var parts := HayParts(item);
    JoinContainsPart(" ", parts, k);
    var pre, post :| Join(" ", parts) == pre + parts[k] + post;
    LowerAppend(pre + parts[k], post);
    LowerAppend(pre, parts[k]);
    ContainsInMiddle(Lower(pre), Lower(parts[k]), Lower(post), Lower(Trim(q)));
  }

  /** In particular, any part of the item's name finds the item. */
  lemma NameMatches(item: Item, q: string)
    requires Contains(Lower(item.name), Lower(Trim(q)))
    ensures MatchesQuery(item, q)
  {
    MatchInPartMatchesItem(item, q, 0);
  }
}
