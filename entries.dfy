/**
 * The `Entry` record of a feed reader: what is stored for one ingested item,
 * the read accessors `body`, `text`, `tags` and `as_indexed_json`, the
 * attributes that ingestion derives from a source item, and the listing
 * scopes with their default order.
 */
module Entries {
  import opened Wrappers
  import opened Strings
  import opened JsonValues

  type FeedId = nat

  /** A timestamp, in seconds. */
  type Time = int

  /** One annotation as returned by the annotation service: a JSON object. */
  type Annotation = map<string, Json>

  /** A stored entry row. */
  datatype Entry = Entry(
    id: nat,
    feedId: FeedId,
    title: string,
    body: Option<string>,
    url: Option<string>,
    externalId: Option<string>,
    categories: seq<string>,
    publishedAt: Time,
    annotations: Option<seq<Annotation>>,
    sentiment: Option<Json>,
    enrichedAt: Option<Time>)

  /** An item parsed from a syndication feed; every field may be missing. */
  datatype SourceItem = SourceItem(
    title: Option<string>,
    summary: Option<string>,
    url: Option<string>,
    entryId: Option<string>,
    categories: Option<seq<Option<string>>>,
    published: Option<Time>)

  /** The projection of one annotation that `tags` exposes. */
  datatype Tag = Tag(uri: Json, spot: Json, tagLabel: Json, confidence: Json, categories: Json)

  const NoContent: string := "no content"
  const Untitled: string := "untitled"

  // ---------------------------------------------------------------------
  // Attributes derived at ingestion
  // ---------------------------------------------------------------------

  /** The stored title: `'untitled'` for a nil or blank source title. */
  function TitleOf(title: Option<string>): (r: string)
    ensures title.None? || Blank(title.value) ==> r == Untitled
    ensures title.Some? && !Blank(title.value) ==> r == title.value
    ensures !Blank(r)
  {
    if title.None? || Blank(title.value) then
      assert Untitled[0] == 'u';
      Untitled
    else title.value
  }

  /** `Array#compact`: the present elements, in order. */
  function Compact(xs: seq<Option<string>>): (r: seq<string>)
    ensures |r| <= |xs|
    ensures forall x :: x in r <==> Some(x) in xs
  {
    if xs == [] then []
    else
      assert xs == [xs[0]] + xs[1..];
      (if xs[0].Some? then [xs[0].value] else []) + Compact(xs[1..])
  }

  /** `compact` distributes over concatenation: order and duplicates survive. */
  lemma {:induction false} CompactAppend(a: seq<Option<string>>, b: seq<Option<string>>)
    ensures Compact(a + b) == Compact(a) + Compact(b)
  {
    if a == [] {
      assert a + b == b;
    } else {
      assert (a + b)[0] == a[0];
      assert (a + b)[1..] == a[1..] + b;
      CompactAppend(a[1..], b);
    }
  }

  /** On a list without nils, `compact` changes nothing. */
  lemma {:induction false} CompactNoNils(xs: seq<Option<string>>)
    requires forall i :: 0 <= i < |xs| ==> xs[i].Some?
    ensures |Compact(xs)| == |xs|
    ensures forall i :: 0 <= i < |xs| ==> Compact(xs)[i] == xs[i].value
  {
    if xs != [] {
      CompactNoNils(xs[1..]);
    }
  }

  /** `map(&:downcase)`. */
  function DowncaseAll(xs: seq<string>): (r: seq<string>)
    ensures |r| == |xs|
    ensures forall i :: 0 <= i < |xs| ==> r[i] == Downcase(xs[i])
  {
    seq(|xs|, i requires 0 <= i < |xs| => Downcase(xs[i]))
  }

  /** The stored categories: `categories.to_a.compact.map(&:downcase)`. */
  function CategoriesOf(categories: Option<seq<Option<string>>>): (r: seq<string>)
    ensures categories.None? ==> r == []
    ensures categories.Some? ==> |r| <= |categories.value|
    ensures forall i :: 0 <= i < |r| ==> IsLower(r[i])
  {
    DowncaseAll(Compact(categories.GetOr([])))
  }

  /** Stored categories keep the order and duplicates of the source list: the
      list of a concatenation is the concatenation of the lists. */
  lemma CategoriesAppend(a: seq<Option<string>>, b: seq<Option<string>>)
    ensures CategoriesOf(Some(a + b)) == CategoriesOf(Some(a)) + CategoriesOf(Some(b))
  {
    CompactAppend(a, b);
  }

  /** Each category present in the source appears lower-cased, and nothing else does. */
  lemma CategoriesMembers(xs: seq<Option<string>>)
    ensures forall c :: c in CategoriesOf(Some(xs)) <==>
      exists x :: Some(x) in xs && c == Downcase(x)
  {
    var r := CategoriesOf(Some(xs));
    var cs := Compact(xs);
    forall c | c in r ensures exists x :: Some(x) in xs && c == Downcase(x) {
      var i :| 0 <= i < |r| && r[i] == c;
      assert cs[i] in cs;
    }
    forall c | exists x :: Some(x) in xs && c == Downcase(x) ensures c in r {
      var x :| Some(x) in xs && c == Downcase(x);
      var i :| 0 <= i < |cs| && cs[i] == x;
      assert r[i] == c;
    }
  }

  /** The attributes of a freshly ingested entry (`Entry.add`'s `attrs`), with
      the row id the database hands out. */
  function NewEntry(id: nat, feedId: FeedId, item: SourceItem, now: Time): (e: Entry)
    ensures e.id == id && e.feedId == feedId
    ensures e.url == item.url && e.body == item.summary && e.externalId == item.entryId
    ensures e.title == TitleOf(item.title) && !Blank(e.title)
    ensures e.title == Untitled <==> item.title.None? || Blank(item.title.value) || item.title.value == Untitled
    ensures e.publishedAt == (if item.published.Some? then item.published.value else now)
    ensures e.categories == CategoriesOf(item.categories)
    ensures e.annotations.None? && e.sentiment.None? && e.enrichedAt.None?
  {
    Entry(id, feedId, TitleOf(item.title), item.summary, item.url, item.entryId,
          CategoriesOf(item.categories), item.published.GetOr(now), None, None, None)
  }

  // ---------------------------------------------------------------------
  // Read accessors
  // ---------------------------------------------------------------------

  /** `body`: the stored body when present, otherwise `'no content'`. */
  function Body(e: Entry): (r: string)
    ensures e.body.Some? && !Blank(e.body.value) ==> r == e.body.value
    ensures e.body.None? || Blank(e.body.value) ==> r == NoContent
    ensures !Blank(r)
  {
    match Presence(e.body.GetOr(""))
    case Some(b) => b
    case None =>
      assert NoContent[0] == 'n';
      NoContent
  }

  /** `text`: the body stripped of markup and squished; the entry's title when
      the body accessor is blank. `stripTags` is the HTML sanitiser. */
  function Text(e: Entry, stripTags: string -> string): (r: string)
    ensures Squished(r)
    ensures NonSpace(r) == NonSpace(stripTags(Body(e)))
  {
    if Blank(Body(e)) then
      assert false;
      e.title
    else
      SquishSquished(stripTags(Body(e)));
      SquishKeepsContent(stripTags(Body(e)));
      Squish(stripTags(Body(e)))
  }

  /** Whitespace between two words of the stripped body becomes exactly one
      space in `text`. */
  lemma TextSeparatesWords(e: Entry, stripTags: string -> string, a: string, w: string, b: string)
    requires stripTags(Body(e)) == a + w + b
    requires a != [] && !IsSpace(a[|a| - 1])
    requires w != [] && Blank(w)
    requires b != [] && !IsSpace(b[0])
    ensures Text(e, stripTags) == Squish(a) + " " + Squish(b)
  {
    SquishSeparates(a, w, b);
  }

  /** A blank stored body reads as `'no content'` in `text` as well: the title
      fallback of `text` is never taken. */
  lemma TextOfBlankBody(e: Entry, stripTags: string -> string)
    requires e.body.None? || Blank(e.body.value)
    ensures Text(e, stripTags) == Squish(stripTags(NoContent))
  {
  }

  /** The de-duplication key of an annotation: its `'id'`. */
  function IdOf(a: Annotation): Json {
    Dig(a, "id")
  }

  /** No two annotations of `xs` share an id. */
  ghost predicate DistinctIds(xs: seq<Annotation>) {
    forall a, b :: 0 <= a < b < |xs| ==> IdOf(xs[a]) != IdOf(xs[b])
  }

  /** The index of the first annotation of `xs` with id `k`, or `|xs|` if none. */
  function FirstIndex(xs: seq<Annotation>, k: Json): (i: nat)
    ensures i <= |xs|
    ensures i < |xs| ==> IdOf(xs[i]) == k
    ensures forall j :: 0 <= j < i ==> IdOf(xs[j]) != k
  {
    if xs == [] then 0
    else if IdOf(xs[0]) == k then 0
    else 1 + FirstIndex(xs[1..], k)
  }

  /** `uniq { |h| h['id'] }` with the ids in `seen` already taken. */
  function UniqFrom(xs: seq<Annotation>, seen: set<Json>): (r: seq<Annotation>)
    ensures |r| <= |xs|
    ensures DistinctIds(r)
    ensures forall j :: 0 <= j < |r| ==> IdOf(r[j]) !in seen && r[j] in xs
  {
    if xs == [] then []
    else if IdOf(xs[0]) in seen then UniqFrom(xs[1..], seen)
    else [xs[0]] + UniqFrom(xs[1..], seen + {IdOf(xs[0])})
  }

  /** `uniq { |h| h['id'] }`: drops every annotation whose id appeared before. */
  function UniqById(xs: seq<Annotation>): (r: seq<Annotation>)
    ensures |r| <= |xs|
    ensures DistinctIds(r)
  {
    UniqFrom(xs, {})
  }

  /** Every annotation of `r` is the first annotation of `xs` with its id, and
      they come in the order of those first occurrences. */
  ghost predicate FirstOccurrences(xs: seq<Annotation>, r: seq<Annotation>) {
    (forall j :: 0 <= j < |r| ==> FirstIndex(xs, IdOf(r[j])) < |xs|) &&
    (forall j :: 0 <= j < |r| ==> xs[FirstIndex(xs, IdOf(r[j]))] == r[j]) &&
    (forall a, b :: 0 <= a < b < |r| ==> FirstIndex(xs, IdOf(r[a])) < FirstIndex(xs, IdOf(r[b])))
  }

  lemma {:induction false} UniqFromFirst(xs: seq<Annotation>, seen: set<Json>)
    ensures FirstOccurrences(xs, UniqFrom(xs, seen))
  {
    if xs != [] {
      var k := IdOf(xs[0]);
      var seen' := if k in seen then seen else seen + {k};
      UniqFromFirst(xs[1..], seen');
      var rest := UniqFrom(xs[1..], seen');
      assert forall j :: 0 <= j < |rest| ==> IdOf(rest[j]) != k;
      FirstOccurrencesCons(xs, rest, k !in seen);
      assert UniqFrom(xs, seen) == if k in seen then rest else [xs[0]] + rest;
    }
  }

  /** Extending the input by one annotation whose id none of `rest` has. */
  lemma FirstOccurrencesCons(xs: seq<Annotation>, rest: seq<Annotation>, keep: bool)
    requires xs != [] && FirstOccurrences(xs[1..], rest)
    requires forall j :: 0 <= j < |rest| ==> IdOf(rest[j]) != IdOf(xs[0])
    ensures FirstOccurrences(xs, if keep then [xs[0]] + rest else rest)
  {
    FirstOccurrencesShift(xs, rest);
    if keep {
      FirstOccurrencesHead(xs, rest);
    }
  }

  lemma FirstOccurrencesShift(xs: seq<Annotation>, rest: seq<Annotation>)
    requires xs != [] && FirstOccurrences(xs[1..], rest)
    requires forall j :: 0 <= j < |rest| ==> IdOf(rest[j]) != IdOf(xs[0])
    ensures FirstOccurrences(xs, rest)
    ensures forall j :: 0 <= j < |rest| ==> FirstIndex(xs, IdOf(rest[j])) > 0
  {
    var tail := xs[1..];
    forall j | 0 <= j < |rest|
      ensures FirstIndex(xs, IdOf(rest[j])) == 1 + FirstIndex(tail, IdOf(rest[j]))
    {
    }
    forall j | 0 <= j < |rest| ensures xs[FirstIndex(xs, IdOf(rest[j]))] == rest[j] {
      var f := FirstIndex(tail, IdOf(rest[j]));
      assert xs[1 + f] == tail[f];
    }
  }

  lemma FirstOccurrencesHead(xs: seq<Annotation>, rest: seq<Annotation>)
    requires xs != [] && FirstOccurrences(xs, rest)
    requires forall j :: 0 <= j < |rest| ==> FirstIndex(xs, IdOf(rest[j])) > 0
    ensures FirstOccurrences(xs, [xs[0]] + rest)
  {
    HeadPositions(xs, rest);
    HeadOrder(xs, rest);
  }

  lemma HeadPositions(xs: seq<Annotation>, rest: seq<Annotation>)
    requires xs != []
    requires forall j :: 0 <= j < |rest| ==> FirstIndex(xs, IdOf(rest[j])) < |xs|
    requires forall j :: 0 <= j < |rest| ==> xs[FirstIndex(xs, IdOf(rest[j]))] == rest[j]
    ensures var r := [xs[0]] + rest;
      (forall j :: 0 <= j < |r| ==> FirstIndex(xs, IdOf(r[j])) < |xs|) &&
      (forall j :: 0 <= j < |r| ==> xs[FirstIndex(xs, IdOf(r[j]))] == r[j])
  {
    var r := [xs[0]] + rest;
    assert FirstIndex(xs, IdOf(xs[0])) == 0;
    forall j | 0 <= j < |r|
      ensures FirstIndex(xs, IdOf(r[j])) < |xs| && xs[FirstIndex(xs, IdOf(r[j]))] == r[j]
    {
      if j > 0 {
        assert r[j] == rest[j - 1];
      }
    }
  }

  lemma HeadOrder(xs: seq<Annotation>, rest: seq<Annotation>)
    requires xs != []
    requires forall a, b :: 0 <= a < b < |rest| ==> FirstIndex(xs, IdOf(rest[a])) < FirstIndex(xs, IdOf(rest[b]))
    requires forall j :: 0 <= j < |rest| ==> FirstIndex(xs, IdOf(rest[j])) > 0
    ensures var r := [xs[0]] + rest;
      forall a, b :: 0 <= a < b < |r| ==> FirstIndex(xs, IdOf(r[a])) < FirstIndex(xs, IdOf(r[b]))
  {
    var r := [xs[0]] + rest;
    assert FirstIndex(xs, IdOf(xs[0])) == 0;
    forall a, b | 0 <= a < b < |r|
      ensures FirstIndex(xs, IdOf(r[a])) < FirstIndex(xs, IdOf(r[b]))
    {
      assert r[b] == rest[b - 1];
      if a > 0 {
        assert r[a] == rest[a - 1];
      }
    }
  }

  /** The ids of the annotations of `xs`. */
  function Ids(xs: seq<Annotation>): (ids: set<Json>)
    ensures forall j :: 0 <= j < |xs| ==> IdOf(xs[j]) in ids
    ensures forall k :: k in ids ==> exists j :: 0 <= j < |xs| && IdOf(xs[j]) == k
  {
    if xs == [] then {} else {IdOf(xs[0])} + Ids(xs[1..])
  }

  /** Every id of `xs` that is not in `seen` is kept. */
  lemma {:induction false} UniqFromIds(xs: seq<Annotation>, seen: set<Json>)
    ensures Ids(UniqFrom(xs, seen)) == Ids(xs) - seen
  {
    if xs != [] {
      var k := IdOf(xs[0]);
      var tail := xs[1..];
      if k in seen {
        UniqFromIds(tail, seen);
      } else {
        UniqFromIds(tail, seen + {k});
        var r := UniqFrom(xs, seen);
        assert r[0] == xs[0] && r[1..] == UniqFrom(tail, seen + {k});
      }
    }
  }

  /** `uniq` by id keeps exactly the first occurrence of every id, in order. */
  lemma UniqByIdFirstOccurrences(xs: seq<Annotation>)
    ensures FirstOccurrences(xs, UniqById(xs))
    ensures Ids(UniqById(xs)) == Ids(xs)
  {
    UniqFromFirst(xs, {});
    UniqFromIds(xs, {});
  }

  /** The five fields `tags` exposes of one annotation. */
  function TagOf(a: Annotation): (r: Tag)
    ensures "uri" in a ==> r.uri == a["uri"]
    ensures "spot" in a ==> r.spot == a["spot"]
    ensures "label" in a ==> r.tagLabel == a["label"]
    ensures "confidence" in a ==> r.confidence == a["confidence"]
    ensures "categories" in a ==> r.categories == a["categories"]
  {
    Tag(Dig(a, "uri"), Dig(a, "spot"), Dig(a, "label"), Dig(a, "confidence"), Dig(a, "categories"))
  }

  /** The keys a tag is read from. */
  const TagKeys: set<string> := {"uri", "spot", "label", "confidence", "categories"}

  /** A tag depends only on the five tag keys of its annotation: annotations
      that agree on those keys (present or absent, and their values) give the
      same tag, whatever else they carry. */
  lemma TagOfOnlyTagKeys(a: Annotation, b: Annotation)
    requires forall k :: k in TagKeys ==> (k in a <==> k in b) && (k in a ==> a[k] == b[k])
    ensures TagOf(a) == TagOf(b)
  {
    assert "uri" in TagKeys && "spot" in TagKeys && "label" in TagKeys;
    assert "confidence" in TagKeys && "categories" in TagKeys;
  }

  /** An annotation without any of the five keys gives a tag of nils. */
  lemma TagOfBare(a: Annotation)
    requires forall k :: k in TagKeys ==> k !in a
    ensures TagOf(a) == Tag(JNull, JNull, JNull, JNull, JNull)
  {
    assert "uri" in TagKeys && "spot" in TagKeys && "label" in TagKeys;
    assert "confidence" in TagKeys && "categories" in TagKeys;
  }

  /** `tags`: the annotations de-duplicated by id and projected to five fields;
      empty when there are no annotations. */
  function Tags(e: Entry): (r: seq<Tag>)
    ensures e.annotations.None? || e.annotations.value == [] ==> r == []
    ensures e.annotations.Some? ==> |r| <= |e.annotations.value|
    ensures e.annotations.Some? ==>
      var u := UniqById(e.annotations.value);
      |r| == |u| && forall j :: 0 <= j < |r| ==> r[j] == TagOf(u[j])
  {
    if e.annotations.None? || e.annotations.value == [] then []
    else
      var u := UniqById(e.annotations.value);
      seq(|u|, j requires 0 <= j < |u| => TagOf(u[j]))
  }

  /** A batch with ids `[1, 1, 2]` yields two tags, from the first and third annotation. */
  lemma TagsOfRepeatedBatch(e: Entry, a1: Annotation, a2: Annotation, a3: Annotation)
    requires IdOf(a1) == JInt(1) && IdOf(a2) == JInt(1) && IdOf(a3) == JInt(2)
    requires e.annotations == Some([a1, a2, a3])
    ensures Tags(e) == [TagOf(a1), TagOf(a3)]
  {
    var xs := [a1, a2, a3];
    var one := {JInt(1)};
    assert xs[1..] == [a2, a3] && [a2, a3][1..] == [a3] && [a3][1..] == [];
    assert UniqFrom([a3], one) == [a3] + UniqFrom([], one + {JInt(2)});
    assert UniqFrom([a2, a3], one) == UniqFrom([a3], one);
    assert IdOf(xs[0]) !in {} && xs[0] == a1;
    assert UniqFrom(xs, {}) == [a1] + UniqFrom(xs[1..], {} + {IdOf(xs[0])});
    assert {} + {IdOf(xs[0])} == one;
  }

  // ---------------------------------------------------------------------
  // Serialisation for the search index
  // ---------------------------------------------------------------------

  function StrOrNull(s: Option<string>): Json {
    match s
    case Some(v) => JStr(v)
    case None => JNull
  }

  function TimeOrNull(t: Option<Time>): Json {
    match t
    case Some(v) => JInt(v)
    case None => JNull
  }

  /** `as_json`: every attribute of the entry, read through its accessor
      (so `body` is the `'no content'`-defaulted value). */
  function Attributes(e: Entry): (m: map<string, Json>)
    ensures m.Keys == AttributeNames
  {
    map[
      "id" := JInt(e.id),
      "feed_id" := JInt(e.feedId),
      "title" := JStr(e.title),
      "body" := JStr(Body(e)),
      "url" := StrOrNull(e.url),
      "external_id" := StrOrNull(e.externalId),
      "categories" := JArr(seq(|e.categories|, i requires 0 <= i < |e.categories| => JStr(e.categories[i]))),
      "published_at" := JInt(e.publishedAt),
      "annotations" := (match e.annotations
                        case Some(xs) => JArr(seq(|xs|, i requires 0 <= i < |xs| => JObj(xs[i])))
                        case None => JNull),
      "sentiment" := e.sentiment.GetOr(JNull),
      "enriched_at" := TimeOrNull(e.enrichedAt)]
  }

  const AttributeNames: set<string> :=
    {"id", "feed_id", "title", "body", "url", "external_id", "categories",
     "published_at", "annotations", "sentiment", "enriched_at"}

  /** `as_indexed_json`: every attribute except `annotations`. */
  function AsIndexedJson(e: Entry): (m: map<string, Json>)
    ensures "annotations" !in m
    ensures m.Keys == AttributeNames - {"annotations"}
    ensures forall k :: k in m ==> m[k] == Attributes(e)[k]
  {
    Attributes(e) - {"annotations"}
  }

  /** The indexed document does not depend on the annotations at all. */
  lemma IndexedJsonIgnoresAnnotations(e: Entry, anns: Option<seq<Annotation>>)
    ensures AsIndexedJson(e.(annotations := anns)) == AsIndexedJson(e)
  {
    var e' := e.(annotations := anns);
    var m, m' := AsIndexedJson(e), AsIndexedJson(e');
    assert Body(e') == Body(e);
    forall k | k in m
      ensures m'[k] == m[k]
    {
      assert k != "annotations";
    }
    SameMaps(m', m);
  }

  lemma SameMaps(m: map<string, Json>, m': map<string, Json>)
    requires m.Keys == m'.Keys
    requires forall k :: k in m ==> m[k] == m'[k]
    ensures m == m'
  {
  }

  // ---------------------------------------------------------------------
  // Enrichment
  // ---------------------------------------------------------------------

  /** The entry after a successful enrichment: annotations, sentiment and
      enrichment time replaced together, every other attribute kept. */
  function WithEnrichment(e: Entry, anns: seq<Annotation>, sentiment: Json, now: Time): (r: Entry)
    ensures r.annotations == Some(anns) && r.sentiment == Some(sentiment) && r.enrichedAt == Some(now)
    ensures r.(annotations := e.annotations, sentiment := e.sentiment, enrichedAt := e.enrichedAt) == e
  {
    e.(annotations := Some(anns), sentiment := Some(sentiment), enrichedAt := Some(now))
  }

  /** Re-enriching overwrites: nothing of an earlier run survives. */
  lemma EnrichOverwrites(e: Entry, a1: seq<Annotation>, s1: Json, t1: Time,
                         a2: seq<Annotation>, s2: Json, t2: Time)
    ensures WithEnrichment(WithEnrichment(e, a1, s1, t1), a2, s2, t2) == WithEnrichment(e, a2, s2, t2)
  {
  }

  /** Enrichment does not change the text it was computed from, so a later run
      sends the same text to the service. */
  lemma EnrichKeepsText(e: Entry, anns: seq<Annotation>, sentiment: Json, now: Time, stripTags: string -> string)
    ensures Text(WithEnrichment(e, anns, sentiment, now), stripTags) == Text(e, stripTags)
  {
  }

  // ---------------------------------------------------------------------
  // Scopes and the default order
  // ---------------------------------------------------------------------

  const Day: int := 24 * 60 * 60

  /** Listed entries come most recently published first. */
  ghost predicate NewestFirst(s: seq<Entry>) {
    forall i, j :: 0 <= i < j < |s| ==> s[i].publishedAt >= s[j].publishedAt
  }

  /** `where(...)` over an already ordered listing. */
  function Where(s: seq<Entry>, p: Entry -> bool): (r: seq<Entry>)
    ensures |r| <= |s|
    ensures forall e :: e in r <==> e in s && p(e)
    ensures forall e :: multiset(r)[e] == if p(e) then multiset(s)[e] else 0
    ensures NewestFirst(s) ==> NewestFirst(r)
  {
    if s == [] then []
    else
      var rest := Where(s[1..], p);
      WhereMembers(s, p, rest);
      WhereCounts(s, p, rest);
      WhereOrder(s, p, rest);
      if p(s[0]) then [s[0]] + rest else rest
  }

  lemma WhereMembers(s: seq<Entry>, p: Entry -> bool, rest: seq<Entry>)
    requires s != []
    requires |rest| <= |s| - 1 && forall e :: e in rest <==> e in s[1..] && p(e)
    ensures var r := if p(s[0]) then [s[0]] + rest else rest;
      |r| <= |s| && forall e :: e in r <==> e in s && p(e)
  {
    assert s == [s[0]] + s[1..];
  }

  lemma WhereCounts(s: seq<Entry>, p: Entry -> bool, rest: seq<Entry>)
    requires s != []
    requires forall e :: multiset(rest)[e] == if p(e) then multiset(s[1..])[e] else 0
    ensures var r := if p(s[0]) then [s[0]] + rest else rest;
      forall e :: multiset(r)[e] == if p(e) then multiset(s)[e] else 0
  {
    assert s == [s[0]] + s[1..];
    assert multiset(s) == multiset{s[0]} + multiset(s[1..]);
    assert multiset([s[0]] + rest) == multiset{s[0]} + multiset(rest);
  }

  lemma WhereOrder(s: seq<Entry>, p: Entry -> bool, rest: seq<Entry>)
    requires s != []
    requires forall e :: e in rest ==> e in s[1..]
    requires NewestFirst(s[1..]) ==> NewestFirst(rest)
    ensures var r := if p(s[0]) then [s[0]] + rest else rest;
      NewestFirst(s) ==> NewestFirst(r)
  {
    if NewestFirst(s) {
      assert NewestFirst(s[1..]) by {
        forall i, j | 0 <= i < j < |s| - 1 ensures s[1..][i].publishedAt >= s[1..][j].publishedAt {
          assert s[1..][i] == s[i + 1] && s[1..][j] == s[j + 1];
        }
      }
      if p(s[0]) {
        var r := [s[0]] + rest;
        forall i, j | 0 <= i < j < |r| ensures r[i].publishedAt >= r[j].publishedAt {
          assert r[j] == rest[j - 1];
          if i > 0 {
            assert r[i] == rest[i - 1];
          } else {
            assert rest[j - 1] in rest;
            var k :| 0 <= k < |s| - 1 && s[1..][k] == r[j];
            assert s[0].publishedAt >= s[k + 1].publishedAt;
          }
        }
      }
    }
  }

  /** Scope `enriched`: entries whose enrichment has completed. */
  function EnrichedScope(s: seq<Entry>): (r: seq<Entry>)
    ensures forall e :: e in r <==> e in s && e.enrichedAt.Some?
    ensures forall e :: multiset(r)[e] == if e.enrichedAt.Some? then multiset(s)[e] else 0
    ensures NewestFirst(s) ==> NewestFirst(r)
  {
    Where(s, (e: Entry) => e.enrichedAt.Some?)
  }

  /** Scope `latest`: entries published in the 24 hours up to `now`. */
  function LatestScope(s: seq<Entry>, now: Time): (r: seq<Entry>)
    ensures forall e :: e in r <==> e in s && e.publishedAt >= now - Day
    ensures forall e :: multiset(r)[e] == if e.publishedAt >= now - Day then multiset(s)[e] else 0
    ensures NewestFirst(s) ==> NewestFirst(r)
  {
    Where(s, (e: Entry) => e.publishedAt >= now - Day)
  }

  /** Inserts `e` into a newest-first listing. */
  function Insert(e: Entry, s: seq<Entry>): (r: seq<Entry>)
    requires NewestFirst(s)
    ensures NewestFirst(r)
    ensures multiset(r) == multiset(s) + multiset{e}
    ensures forall x :: x in r ==> x == e || x in s
  {
    if s == [] || e.publishedAt >= s[0].publishedAt then
      InsertFront(e, s);
      [e] + s
    else
      var rest := Insert(e, s[1..]);
      assert s == [s[0]] + s[1..];
      InsertHead(s[0], rest, e, s[1..]);
      [s[0]] + rest
  }

  lemma InsertFront(e: Entry, s: seq<Entry>)
    requires NewestFirst(s) && (s == [] || e.publishedAt >= s[0].publishedAt)
    ensures NewestFirst([e] + s)
  {
    var r := [e] + s;
    forall i, j | 0 <= i < j < |r| ensures r[i].publishedAt >= r[j].publishedAt {
      assert r[j] == s[j - 1];
      if i > 0 {
        assert r[i] == s[i - 1];
      } else if j > 1 {
        assert s[0].publishedAt >= s[j - 1].publishedAt;
      }
    }
  }

  lemma InsertHead(h: Entry, rest: seq<Entry>, e: Entry, tail: seq<Entry>)
    requires NewestFirst(rest) && e.publishedAt < h.publishedAt
    requires forall x :: x in tail ==> h.publishedAt >= x.publishedAt
    requires forall x :: x in rest ==> x == e || x in tail
    ensures NewestFirst([h] + rest)
  {
    var r := [h] + rest;
    forall i, j | 0 <= i < j < |r| ensures r[i].publishedAt >= r[j].publishedAt {
      if i == 0 {
        assert r[j] in rest;
      } else {
        assert r[i] == rest[i - 1] && r[j] == rest[j - 1];
      }
    }
  }

  /** The default scope `order(published_at: :desc)`. */
  function DefaultOrder(s: seq<Entry>): (r: seq<Entry>)
    ensures NewestFirst(r)
    ensures multiset(r) == multiset(s)
  {
    if s == [] then []
    else
      assert s == [s[0]] + s[1..];
      Insert(s[0], DefaultOrder(s[1..]))
  }
}
