/** The list logic of the page helpers in wiki-shared.js: the filter that
    `wirePage` applies when it renders, the tag list of `buildPills`, and
    the key/value pairs a grid card shows in `renderGrid`. */
module WikiPages {
  import opened Options
  import opened Seqs
  import opened Text
  import opened JsValues
  import opened WikiText
  import opened WikiItems

  // ---------- wirePage: the rendered list ----------

  /** The label of the pill that shows every tag. */
  const AllLabel: Value := Str("All")

  /** The first filter: the active pill is "All" or one of the item's tags. */
  predicate HasActiveTag(tag: Value, it: Item) {
    tag == AllLabel || tag in it.tags
  }

  function TagTest(tag: Value): Item -> bool {
    it => HasActiveTag(tag, it)
  }

  function QueryTest(q: string): Item -> bool {
    it => MatchesQuery(it, q)
  }

  /** What `render` lists: the items under the active pill, then those
      matching the trimmed search text, in catalogue order. */
  function PageItems(all: seq<Item>, tag: Value, input: string): seq<Item> {
    Filter(QueryTest(Trim(input)), Filter(TagTest(tag), all))
  }

  /** The listed items are exactly those of the catalogue that pass both
      tests, each as often as it occurs there and in the same order. */
  lemma PageItemsSpec(all: seq<Item>, tag: Value, input: string, x: Item)
    ensures IsSubsequence(PageItems(all, tag, input), all)
    ensures multiset(PageItems(all, tag, input))[x] ==
      if HasActiveTag(tag, x) && MatchesQuery(x, Trim(input)) then multiset(all)[x] else 0
  {
    FilterTwiceIsSubsequence(TagTest(tag), QueryTest(Trim(input)), all);
    FilterMultiplicity(TagTest(tag), all, x);
    FilterMultiplicity(QueryTest(Trim(input)), Filter(TagTest(tag), all), x);
  }

  /** Under the "All" pill only the search filters. */
  lemma AllPillKeepsEveryTag(all: seq<Item>, input: string)
    ensures PageItems(all, AllLabel, input) == Filter(QueryTest(Trim(input)), all)
  {
    FilterKeepsAll(TagTest(AllLabel), all);
  }

  /** With a blank search box only the pill filters. */
  lemma BlankSearchKeepsEveryMatch(all: seq<Item>, tag: Value, input: string)
    requires AllWhite(input)
    ensures PageItems(all, tag, input) == Filter(TagTest(tag), all)
  {
    TrimEmptyIff(input);
    var tagged := Filter(TagTest(tag), all);
    forall i | 0 <= i < |tagged|
      ensures QueryTest(Trim(input))(tagged[i])
    {
      BlankQueryMatchesAll(tagged[i], Trim(input));
    }
    FilterKeepsAll(QueryTest(Trim(input)), tagged);
  }

  // ---------- buildPills: the tag list ----------

  /** `items.flatMap(i => i.tags || [])` over normalised items. */
  function FlatTags(items: seq<Item>): seq<Value> {
    if items == [] then [] else items[0].tags + FlatTags(items[1..])
  }

  lemma {:induction false} FlatTagsMembership(items: seq<Item>, t: Value)
    ensures t in FlatTags(items) <==> exists k :: 0 <= k < |items| && t in items[k].tags
  {
    if items != [] {
      FlatTagsMembership(items[1..], t);
      if t in FlatTags(items[1..]) {
        var k :| 0 <= k < |items[1..]| && t in items[1..][k].tags;
        assert t in items[k + 1].tags;
      }
      if exists k :: 0 <= k < |items| && t in items[k].tags {
        var k :| 0 <= k < |items| && t in items[k].tags;
        if k > 0 {
          assert t in items[1..][k - 1].tags;
        }
      }
    }
  }

  /** The order of the default `sort`: `undefined` last, everything else by
      code-point order of `String(v)` (JavaScript compares UTF-16 code units). */
  predicate TagLe(a: Value, b: Value) {
    if b.Undefined? then true
    else if a.Undefined? then false
    else LexLe(ToStr(a), ToStr(b))
  }

  lemma TagLeTotal(a: Value, b: Value)
    ensures TagLe(a, b) || TagLe(b, a)
  {
    if !a.Undefined? && !b.Undefined? {
      LexLeTotal(ToStr(a), ToStr(b));
    }
  }

  lemma TagLeTransitive(a: Value, b: Value, c: Value)
    requires TagLe(a, b) && TagLe(b, c)
    ensures TagLe(a, c)
  {
    if !c.Undefined? {
      LexLeTransitive(ToStr(a), ToStr(b), ToStr(c));
    }
  }

  predicate SortedTags(s: seq<Value>) {
    forall i, j :: 0 <= i < j < |s| ==> TagLe(s[i], s[j])
  }

  /** Puts `x` in front of the first element it does not follow. */
  function InsertTag(x: Value, s: seq<Value>): (r: seq<Value>)
    ensures multiset(r) == multiset(s) + multiset{x}
  {
    if s == [] then [x]
    else if TagLe(x, s[0]) then [x] + s
    else
      assert s == [s[0]] + s[1..];
      [s[0]] + InsertTag(x, s[1..])
  }

  lemma {:induction false} InsertTagSorted(x: Value, s: seq<Value>)
    requires SortedTags(s)
    ensures SortedTags(InsertTag(x, s))
  {
    if s != [] {
      if TagLe(x, s[0]) {
        forall j | 0 <= j < |s|
          ensures TagLe(x, s[j])
        {
          if j > 0 {
            TagLeTransitive(x, s[0], s[j]);
          }
        }
        SortedCons(x, s);
      } else {
        InsertTagSorted(x, s[1..]);
        TagLeTotal(x, s[0]);
        var r := InsertTag(x, s[1..]);
        forall j | 0 <= j < |r|
          ensures TagLe(s[0], r[j])
        {
          assert r[j] in multiset(s[1..]) + multiset{x};
          if r[j] != x {
            var k :| 0 <= k < |s[1..]| && s[1..][k] == r[j];
            assert r[j] == s[k + 1];
          }
        }
        SortedCons(s[0], r);
      }
    }
  }

  /** A sorted list stays sorted behind a tag that precedes all of it. */
  lemma SortedCons(a: Value, s: seq<Value>)
    requires SortedTags(s)
    requires forall j :: 0 <= j < |s| ==> TagLe(a, s[j])
    ensures SortedTags([a] + s)
  {
    var r := [a] + s;
    forall i, j | 0 <= i < j < |r|
      ensures TagLe(r[i], r[j])
    {
      assert r[j] == s[j - 1];
      if i > 0 {
        assert r[i] == s[i - 1];
      }
    }
  }

  /** An insertion sort; it keeps equal elements in their order, as `sort` does. */
  function SortTags(s: seq<Value>): (r: seq<Value>)
    ensures multiset(r) == multiset(s)
  {
    if s == [] then []
    else
      assert s == [s[0]] + s[1..];
      InsertTag(s[0], SortTags(s[1..]))
  }

  lemma {:induction false} SortTagsSorted(s: seq<Value>)
    ensures SortedTags(SortTags(s))
  {
    if s != [] {
      SortTagsSorted(s[1..]);
      InsertTagSorted(s[0], SortTags(s[1..]));
    }
  }

  lemma {:induction false} InsertTagDistinct(x: Value, s: seq<Value>)
    requires Distinct(s) && x !in s
    ensures Distinct(InsertTag(x, s))
  {
    if s != [] && !TagLe(x, s[0]) {
      InsertTagDistinct(x, s[1..]);
      var r := InsertTag(x, s[1..]);
      assert s[0] !in multiset(s[1..]) + multiset{x};
      assert s[0] !in r;
    }
  }

  lemma {:induction false} SortTagsDistinct(s: seq<Value>)
    requires Distinct(s)
    ensures Distinct(SortTags(s))
  {
    if s != [] {
      SortTagsDistinct(s[1..]);
      assert s[0] !in multiset(SortTags(s[1..]));
      InsertTagDistinct(s[0], SortTags(s[1..]));
    }
  }

  /** `[...new Set(items.flatMap(...))].sort()`. */
  function PillTags(items: seq<Item>): seq<Value> {
    SortTags(Dedup(FlatTags(items)))
  }

  /** The pills after "All": sorted, each tag once, and exactly the tags
      that some item carries. */
  lemma PillTagsSpec(items: seq<Item>)
    ensures SortedTags(PillTags(items))
    ensures Distinct(PillTags(items))
    ensures forall t :: t in PillTags(items) <==> exists k :: 0 <= k < |items| && t in items[k].tags
  {
    var d := Dedup(FlatTags(items));
    SortTagsSorted(d);
    SortTagsDistinct(d);
    forall t
      ensures t in PillTags(items) <==> exists k :: 0 <= k < |items| && t in items[k].tags
    {
      FlatTagsMembership(items, t);
      assert t in PillTags(items) <==> t in multiset(d);
    }
  }

  /** The labels `buildPills` makes buttons for, in order. */
  function PillLabels(items: seq<Item>): (r: seq<Value>)
    ensures |r| == |PillTags(items)| + 1 && r[0] == AllLabel
    ensures r[1..] == PillTags(items)
  {
    [AllLabel] + PillTags(items)
  }

  // ---------- renderGrid: the key/value pairs ----------

  datatype KvPair = KvPair(k: string, v: string)

  /** An extra entry is shown when it is truthy and has both `k` and `v`. */
  predicate KeepKv(p: Value) {
    Truthy(p) && !Get(p, "k").Undefined? && !Get(p, "v").Undefined?
  }

  function KvOf(p: Value): KvPair {
    KvPair(ToStr(Get(p, "k")), ToStr(Get(p, "v")))
  }

  /** What one extra entry contributes. */
  function KvStep(p: Value): seq<KvPair> {
    if KeepKv(p) then [KvOf(p)] else []
  }

  /** The pairs the extra entries contribute. */
  function KvEntries(kv: seq<Value>): seq<KvPair> {
    if kv == [] then [] else KvStep(kv[0]) + KvEntries(kv[1..])
  }

  lemma {:induction false} KvEntriesAppend(a: seq<Value>, b: seq<Value>)
    ensures KvEntries(a + b) == KvEntries(a) + KvEntries(b)
  {
    if a == [] {
      assert a + b == b;
    } else {
      assert (a + b)[1..] == a[1..] + b;
      KvEntriesAppend(a[1..], b);
    }
  }

  /** Each kept entry pushed as `{ k: String(p.k), v: String(p.v) }`, in order. */
  function KvOfAll(ps: seq<Value>): (r: seq<KvPair>)
    ensures |r| == |ps|
    ensures forall i :: 0 <= i < |ps| ==> r[i] == KvOf(ps[i])
  {
    if ps == [] then [] else [KvOf(ps[0])] + KvOfAll(ps[1..])
  }

  /** The extra pairs are the kept entries, converted one by one, in order. */
  lemma {:induction false} KvEntriesAreKeptEntries(kv: seq<Value>)
    ensures KvEntries(kv) == KvOfAll(Filter(KeepKv, kv))
  {
    if kv != [] {
      KvEntriesAreKeptEntries(kv[1..]);
      var rest := Filter(KeepKv, kv[1..]);
      if KeepKv(kv[0]) {
        assert Filter(KeepKv, kv) == [kv[0]] + rest;
        assert ([kv[0]] + rest)[1..] == rest;
      }
    }
  }

  /** The `kvPairs` list of a grid card: buying and selling price through
      `moneyCell`, then the extra entries. */
  method BuildKvPairs(it: Item) returns (pairs: seq<KvPair>)
    ensures pairs == [KvPair("Buy", MoneyCell(PriceValue(it.buy))), KvPair("Sell", MoneyCell(PriceValue(it.sell)))]
                     + KvEntries(it.kv)
  {
    ghost var head := [KvPair("Buy", MoneyCell(PriceValue(it.buy))), KvPair("Sell", MoneyCell(PriceValue(it.sell)))];
    pairs := [];
    pairs := pairs + [KvPair("Buy", MoneyCell(PriceValue(it.buy)))];
    pairs := pairs + [KvPair("Sell", MoneyCell(PriceValue(it.sell)))];
    var kv := it.kv;
    for i := 0 to |kv|
      invariant pairs == head + KvEntries(kv[..i])
    {
      var p := kv[i];
      KvEntriesAppend(kv[..i], [p]);
      assert kv[..i + 1] == kv[..i] + [p];
      assert KvEntries([p]) == KvStep(p);
      if !Truthy(p) {
        continue;
      }
      if Get(p, "k").Undefined? || Get(p, "v").Undefined? {
        continue;
      }
      pairs := pairs + [KvOf(p)];
    }
    assert kv[..|kv|] == kv;
  }

  /** A price cell shows the dash when the price is absent or blank, and
      otherwise the trimmed price. */
  lemma PriceCell(p: Option<string>)
    ensures p == None || AllWhite(p.value) ==> MoneyCell(PriceValue(p)) == Dash
    ensures p != None && !AllWhite(p.value) ==> MoneyCell(PriceValue(p)) == Trim(p.value)
  {
  }
}
